/**
 * The slide record: its fields, the setters that validate each field
 * before assigning it, the data snapshot, and the expiry rule.
 *
 * The source's `Slide` object is mutable and a setter that rejects its
 * argument throws before assigning. Here a record is an immutable value and
 * a setter returns either the updated record or the error, so a rejected
 * value cannot reach the record.
 */
module Slides {
  import opened Outcome
  import Directory

  /** One byte of a PHP string. */
  newtype byte = b: int | 0 <= b < 256

  /**
   * The configured limits the setters check against. Their values live in
   * the site configuration, which is not part of this model, so they are
   * parameters and nothing is assumed of them.
   */
  datatype Limits = Limits(
    nameMaxLen: int,
    markupMaxLen: int,
    maxIndex: int,
    minTime: int,
    maxTime: int)

  /** One slide. `markup` is the raw content payload, kept as bytes. */
  datatype Slide = Slide(
    id: string,
    name: string,
    index: int,
    time: int,
    markup: seq<byte>,
    owner: string,
    enabled: bool,
    expires: bool,
    expireT: int)

  /** The character class `[a-zA-Z0-9_-]` of slide names. */
  predicate NameChar(c: char) {
    ('a' <= c <= 'z') || ('A' <= c <= 'Z') || ('0' <= c <= '9') || c == '_' || c == '-'
  }

  /** The scan for a character outside the name class, as the negated-class pattern match does it. */
  function FindBadChar(name: string): (found: bool)
    ensures found <==> exists i :: 0 <= i < |name| && !NameChar(name[i])
  {
    if |name| == 0 then false
    else !NameChar(name[0]) || FindBadChar(name[1..])
  }

  /** The rules of each setter, stated independently of the setters. */
  predicate ValidName(name: string, lim: Limits) {
    (forall i :: 0 <= i < |name| ==> NameChar(name[i])) && |name| <= lim.nameMaxLen
  }

  predicate ValidIndex(index: int, lim: Limits) {
    0 <= index <= lim.maxIndex
  }

  predicate ValidTime(time: int, lim: Limits) {
    lim.minTime <= time <= lim.maxTime
  }

  predicate ValidMarkup(markup: seq<byte>, lim: Limits) {
    |markup| <= lim.markupMaxLen
  }

  predicate ValidExpireT(t: int) {
    t >= 0
  }

  /**
   * Every field of `s` is one its setter accepts: the record could have
   * been built or loaded through the setters. `listing` is the slides
   * directory listing and `userExists` the user-existence check.
   */
  predicate ValidSlide(s: Slide, listing: seq<string>, lim: Limits, userExists: string -> bool) {
    && s.id in Directory.SlidesIdList(listing)
    && ValidMarkup(s.markup, lim)
    && ValidName(s.name, lim)
    && ValidIndex(s.index, lim)
    && ValidTime(s.time, lim)
    && userExists(s.owner)
    && ValidExpireT(s.expireT)
  }

  /** Rebinds the record to an identifier that already exists in the slides directory. */
  function SetId(s: Slide, id: string, listing: seq<string>): (r: Result<Slide>)
    ensures r.Ok? <==> id in listing && !Directory.Hidden(id)
    ensures r.Ok? ==> r.value == s.(id := id)
    ensures r.Err? ==> r.error == Validation(IdField, Unknown)
  {
    if id !in Directory.SlidesIdList(listing) then Err(Validation(IdField, Unknown))
    else Ok(s.(id := id))
  }

  function SetMarkup(s: Slide, markup: seq<byte>, lim: Limits): (r: Result<Slide>)
    ensures r.Ok? <==> ValidMarkup(markup, lim)
    ensures r.Ok? ==> r.value == s.(markup := markup)
    ensures r.Err? ==> r.error == Validation(MarkupField, TooLong)
  {
    if |markup| > lim.markupMaxLen then Err(Validation(MarkupField, TooLong))
    else Ok(s.(markup := markup))
  }

  /** The character check comes first, so a long name with a bad character reports the character. */
  function SetName(s: Slide, name: string, lim: Limits): (r: Result<Slide>)
    ensures r.Ok? <==> ValidName(name, lim)
    ensures r.Ok? ==> r.value == s.(name := name)
    ensures r.Err? && (exists i :: 0 <= i < |name| && !NameChar(name[i])) ==> r.error == Validation(NameField, BadChars)
    ensures r.Err? && (forall i :: 0 <= i < |name| ==> NameChar(name[i])) ==> r.error == Validation(NameField, TooLong)
  {
    if FindBadChar(name) then Err(Validation(NameField, BadChars))
    else if |name| > lim.nameMaxLen then Err(Validation(NameField, TooLong))
    else Ok(s.(name := name))
  }

  function SetIndex(s: Slide, index: int, lim: Limits): (r: Result<Slide>)
    ensures r.Ok? <==> ValidIndex(index, lim)
    ensures r.Ok? ==> r.value == s.(index := index)
    ensures r.Err? ==> r.error == Validation(IndexField, OutOfRange)
  {
    if index < 0 || index > lim.maxIndex then Err(Validation(IndexField, OutOfRange))
    else Ok(s.(index := index))
  }

  function SetTime(s: Slide, time: int, lim: Limits): (r: Result<Slide>)
    ensures r.Ok? <==> ValidTime(time, lim)
    ensures r.Ok? ==> r.value == s.(time := time)
    ensures r.Err? ==> r.error == Validation(TimeField, OutOfRange)
  {
    if time < lim.minTime || time > lim.maxTime then Err(Validation(TimeField, OutOfRange))
    else Ok(s.(time := time))
  }

  function SetOwner(s: Slide, owner: string, userExists: string -> bool): (r: Result<Slide>)
    ensures r.Ok? <==> userExists(owner)
    ensures r.Ok? ==> r.value == s.(owner := owner)
    ensures r.Err? ==> r.error == Validation(OwnerField, Unknown)
  {
    if !userExists(owner) then Err(Validation(OwnerField, Unknown))
    else Ok(s.(owner := owner))
  }

  function SetExpireT(s: Slide, t: int): (r: Result<Slide>)
    ensures r.Ok? <==> ValidExpireT(t)
    ensures r.Ok? ==> r.value == s.(expireT := t)
    ensures r.Err? ==> r.error == Validation(ExpireField, Negative)
  {
    if t < 0 then Err(Validation(ExpireField, Negative))
    else Ok(s.(expireT := t))
  }

  /** The two flag setters accept every boolean and change nothing but their own flag. */
  function SetEnabled(s: Slide, enabled: bool): (r: Slide)
    ensures r.enabled == enabled
    ensures r.(enabled := s.enabled) == s
  {
    s.(enabled := enabled)
  }

  function SetExpires(s: Slide, expires: bool): (r: Slide)
    ensures r.expires == expires
    ensures r.(expires := s.expires) == s
  {
    s.(expires := expires)
  }

  /** A slide has expired when it is set to expire and the clock has reached its expiry time. */
  predicate Expired(s: Slide, now: int) {
    s.expires && now >= s.expireT
  }

  /**
   * The expiry rule: an expired slide is disabled, every other slide is
   * left as it is, and no field other than `enabled` ever changes. `now`
   * is the wall-clock time in seconds.
   */
  function CheckExpired(s: Slide, now: int): (r: Slide)
    ensures r.enabled <==> s.enabled && !Expired(s, now)
    ensures !Expired(s, now) ==> r == s
    ensures r.(enabled := s.enabled) == s
  {
    if Expired(s, now) then SetEnabled(s, false) else s
  }

  /** Applying the expiry rule twice at the same time changes nothing more. */
  lemma CheckExpiredIdempotent(s: Slide, now: int)
    ensures CheckExpired(CheckExpired(s, now), now) == CheckExpired(s, now)
  {
  }

  /** A slide disabled at one time stays disabled by the rule at any later time. */
  lemma CheckExpiredMonotone(s: Slide, now: int, later: int)
    requires now <= later
    ensures !CheckExpired(s, now).enabled ==> !CheckExpired(s, later).enabled
  {
  }

  /** A record is valid exactly when each checking setter accepts the value its field already holds. */
  lemma ValidSlideBySetters(s: Slide, listing: seq<string>, lim: Limits, userExists: string -> bool)
    ensures ValidSlide(s, listing, lim, userExists) <==>
              && SetId(s, s.id, listing).Ok?
              && SetMarkup(s, s.markup, lim).Ok?
              && SetName(s, s.name, lim).Ok?
              && SetIndex(s, s.index, lim).Ok?
              && SetTime(s, s.time, lim).Ok?
              && SetOwner(s, s.owner, userExists).Ok?
              && SetExpireT(s, s.expireT).Ok?
  {
  }
}
