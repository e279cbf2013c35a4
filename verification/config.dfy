/**
 * The slide config: the key/value record `write` serializes for a slide
 * (every field except the id and the markup, which has its own file) and
 * the reverse path `load` takes, which checks the keys and then feeds each
 * value through the field's setter. The JSON text itself is not modelled:
 * a config is the decoded key/value sequence, in key order.
 */
module Config {
  import opened Outcome
  import opened Slides

  /** A decoded PHP value. `Bytes` only occurs in the data snapshot, for the markup. */
  datatype Value = Str(s: string) | Int(i: int) | Bool(b: bool) | Null | Bytes(data: seq<byte>)

  /** An ordered associative array, as a sequence of key/value pairs. */
  type Conf = seq<(string, Value)>

  /** The keys a slide config must have, in this order. */
  const ConfKeys: seq<string> := ["name", "index", "time", "owner", "enabled", "expires", "expire_t"]

  function Keys(c: Conf): (ks: seq<string>)
    ensures |ks| == |c|
    ensures forall i :: 0 <= i < |c| ==> ks[i] == c[i].0
  {
    if |c| == 0 then [] else [c[0].0] + Keys(c[1..])
  }

  /** The config array `write` builds from a slide, before encoding. */
  function ConfOf(s: Slide): (c: Conf)
    ensures Keys(c) == ConfKeys
  {
    [("name", Str(s.name)),
     ("index", Int(s.index)),
     ("time", Int(s.time)),
     ("owner", Str(s.owner)),
     ("enabled", Bool(s.enabled)),
     ("expires", Bool(s.expires)),
     ("expire_t", Int(s.expireT))]
  }

  /** The plain snapshot of every field, for callers such as the API layer. */
  function DataArray(s: Slide): (d: seq<(string, Value)>)
    ensures Keys(d) == ["id", "markup"] + ConfKeys
    ensures d[0] == ("id", Str(s.id)) && d[1] == ("markup", Bytes(s.markup))
    ensures d[2..] == ConfOf(s)
  {
    [("id", Str(s.id)), ("markup", Bytes(s.markup))] + ConfOf(s)
  }

  /** The record `load` starts from; every field is overwritten before it is used. */
  const Blank := Slide("", "", 0, 0, [], "", false, false, 0)

  function StrValue(v: Value, key: string): (r: Result<string>)
    ensures r.Err? ==> r.error.Integrity?
  {
    if v.Str? then Ok(v.s) else Err(Integrity("type of " + key))
  }

  function IntValue(v: Value, key: string): (r: Result<int>)
    ensures r.Err? ==> r.error.Integrity?
  {
    if v.Int? then Ok(v.i) else Err(Integrity("type of " + key))
  }

  function BoolValue(v: Value, key: string): (r: Result<bool>)
    ensures r.Err? ==> r.error.Integrity?
  {
    if v.Bool? then Ok(v.b) else Err(Integrity("type of " + key))
  }

  /** The identity and payload part of loading: the id (which must be listed) and then the markup. */
  function LoadHead(id: string, markup: seq<byte>, listing: seq<string>, lim: Limits): (r: Result<Slide>)
    ensures r.Ok? ==> r.value.id == id && r.value.markup == markup
    ensures r.Ok? <==> ValidMarkup(markup, lim) && id in Directory.SlidesIdList(listing)
    ensures r.Err? ==> r.error.Validation? || r.error.Integrity?
  {
    var s :- SetId(Blank, id, listing);
    SetMarkup(s, markup, lim)
  }

  /** The config part of loading: name, index, time and owner through their setters. */
  function LoadFields(s: Slide, c: Conf, lim: Limits, userExists: string -> bool): (r: Result<Slide>)
    requires |c| == 7
    ensures r.Ok? <==> && c[0].1.Str? && ValidName(c[0].1.s, lim)
                       && c[1].1.Int? && ValidIndex(c[1].1.i, lim)
                       && c[2].1.Int? && ValidTime(c[2].1.i, lim)
                       && c[3].1.Str? && userExists(c[3].1.s)
    ensures r.Ok? ==> r.value == s.(name := c[0].1.s, index := c[1].1.i, time := c[2].1.i, owner := c[3].1.s)
    ensures r.Err? ==> r.error.Validation? || r.error.Integrity?
  {
    var name :- StrValue(c[0].1, "name");
    var s :- SetName(s, name, lim);
    var index :- IntValue(c[1].1, "index");
    var s :- SetIndex(s, index, lim);
    var time :- IntValue(c[2].1, "time");
    var s :- SetTime(s, time, lim);
    var owner :- StrValue(c[3].1, "owner");
    SetOwner(s, owner, userExists)
  }

  /** The flag part of loading: enabled, expires and expire_t. */
  function LoadFlags(s: Slide, c: Conf): (r: Result<Slide>)
    requires |c| == 7
    ensures r.Ok? <==> c[4].1.Bool? && c[5].1.Bool? && c[6].1.Int? && ValidExpireT(c[6].1.i)
    ensures r.Ok? ==> r.value == s.(enabled := c[4].1.b, expires := c[5].1.b, expireT := c[6].1.i)
    ensures r.Err? ==> r.error.Validation? || r.error.Integrity?
  {
    var enabled :- BoolValue(c[4].1, "enabled");
    var expires :- BoolValue(c[5].1, "expires");
    var t :- IntValue(c[6].1, "expire_t");
    SetExpireT(SetExpires(SetEnabled(s, enabled), expires), t)
  }

  /**
   * Everything `load` does after reading the two files, before the expiry
   * check: the key check, then every field through its setter in the
   * source's order (id, markup, name, index, time, owner, enabled,
   * expires, expire_t).
   */
  function FromConf(id: string, markup: seq<byte>, c: Conf, listing: seq<string>, lim: Limits,
                    userExists: string -> bool): (r: Result<Slide>)
    ensures Keys(c) != ConfKeys ==> r == Err(Integrity("Invalid slide config."))
    ensures r.Ok? ==> r.value.id == id && r.value.markup == markup
    ensures r.Ok? ==> ValidSlide(r.value, listing, lim, userExists)
    ensures r.Err? ==> r.error.Validation? || r.error.Integrity?
  {
    if Keys(c) != ConfKeys then Err(Integrity("Invalid slide config."))
    else
      var s :- LoadHead(id, markup, listing, lim);
      var s :- LoadFields(s, c, lim, userExists);
      LoadFlags(s, c)
  }

  /**
   * Decoding what `write` encodes: a slide whose fields all pass their
   * setters comes back unchanged, and a slide with any field a setter
   * rejects does not come back at all.
   */
  lemma FromConfOfWritten(s: Slide, listing: seq<string>, lim: Limits, userExists: string -> bool)
    ensures FromConf(s.id, s.markup, ConfOf(s), listing, lim, userExists).Ok? <==> ValidSlide(s, listing, lim, userExists)
    ensures ValidSlide(s, listing, lim, userExists) ==> FromConf(s.id, s.markup, ConfOf(s), listing, lim, userExists) == Ok(s)
  {
    var c := ConfOf(s);
    if LoadHead(s.id, s.markup, listing, lim).Ok? {
      var h := LoadHead(s.id, s.markup, listing, lim).value;
      if LoadFields(h, c, lim, userExists).Ok? {
        var f := LoadFields(h, c, lim, userExists).value;
        assert f == s.(enabled := Blank.enabled, expires := Blank.expires, expireT := Blank.expireT);
      }
    }
  }

  /**
   * Encoding what `load` decodes: a config that loads writes back as the
   * same config, and the slide it gives has every field a setter accepts.
   */
  lemma ConfOfLoaded(id: string, markup: seq<byte>, c: Conf, listing: seq<string>, lim: Limits,
                     userExists: string -> bool)
    requires FromConf(id, markup, c, listing, lim, userExists).Ok?
    ensures var s := FromConf(id, markup, c, listing, lim, userExists).value;
            && ConfOf(s) == c
            && s.id == id && s.markup == markup
            && ValidSlide(s, listing, lim, userExists)
  {
    var s := FromConf(id, markup, c, listing, lim, userExists).value;
    assert Keys(c) == ConfKeys;
    var h := LoadHead(id, markup, listing, lim).value;
    var f := LoadFields(h, c, lim, userExists).value;
    assert s == LoadFlags(f, c).value;
    assert c[0] == ("name", Str(s.name)) && c[1] == ("index", Int(s.index));
    assert c[2] == ("time", Int(s.time)) && c[3] == ("owner", Str(s.owner));
    assert c[4] == ("enabled", Bool(s.enabled)) && c[5] == ("expires", Bool(s.expires));
    assert c[6] == ("expire_t", Int(s.expireT));
  }
}
