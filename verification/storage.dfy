/**
 * The slides directory as a store: one entry per slide directory that
 * holds both a config file and a markup file, plus the raw directory
 * listing. Loading, writing, listing and the storage side of the reindex
 * pass are defined over it. File locking and the byte-level JSON encoding
 * are not modelled: a config file holds its decoded key/value array, or
 * nothing usable when it does not decode to one.
 */
module Storage {
  import opened Outcome
  import opened Slides
  import opened Config
  import opened Ordering
  import opened IndexJuggler
  import Directory

  /** One slide directory's two files. `conf` is None when the config does not decode to an array. */
  datatype Entry = Entry(conf: Option<Conf>, markup: seq<byte>)

  /** The slides directory: its listing as read, and the slide directories holding both files. */
  datatype Store = Store(listing: seq<string>, slides: map<string, Entry>)

  /** What loading consults besides the store: the limits, the user-existence check and the clock. */
  datatype Env = Env(lim: Limits, userExists: string -> bool, now: int)

  /** A loaded slide and the store after loading it (loading writes back a slide whenever it has expired). */
  datatype Loaded = Loaded(slide: Slide, store: Store)

  /** The entry `write` leaves for a slide: its config array and its markup. */
  function EntryOf(s: Slide): Entry {
    Entry(Some(ConfOf(s)), s.markup)
  }

  /** Overwrites the slide's two files, creating them when absent; nothing else changes. */
  function Write(st: Store, s: Slide): (r: Store)
    ensures r.listing == st.listing
    ensures r.slides.Keys == st.slides.Keys + {s.id}
    ensures r.slides[s.id] == EntryOf(s)
    ensures forall id :: id in st.slides && id != s.id ==> r.slides[id] == st.slides[id]
  {
    Store(st.listing, st.slides[s.id := EntryOf(s)])
  }

  /**
   * Loads slide `id`: not-found when its files are missing, an integrity
   * error when the config does not decode or has the wrong keys, otherwise
   * every field through its setter, then the expiry rule, writing the
   * slide back whenever it has expired.
   */
  function Load(st: Store, id: string, env: Env): (r: Result<Loaded>)
    ensures r == Err(NotFound) <==> id !in st.slides
    ensures id in st.slides && st.slides[id].conf.None? ==> r.Err? && r.error.Integrity?
    ensures r.Ok? ==> r.value.slide.id == id && r.value.store.listing == st.listing
    ensures r.Ok? ==> r.value.store.slides.Keys == st.slides.Keys
    ensures r.Ok? ==> ValidSlide(r.value.slide, st.listing, env.lim, env.userExists)
    ensures r.Ok? && Expired(r.value.slide, env.now) ==> !r.value.slide.enabled
  {
    if id !in st.slides then Err(NotFound)
    else
      var e := st.slides[id];
      if e.conf.None? then Err(Integrity("Slide config decode error!"))
      else
        var s :- FromConf(id, e.markup, e.conf.value, st.listing, env.lim, env.userExists);
        Expire(st, s, env)
  }

  /**
   * The expiry step of loading: the rule applied, and the slide written
   * back whenever it has expired (also when it was already disabled).
   */
  function Expire(st: Store, s: Slide, env: Env): (r: Result<Loaded>)
    ensures r.Ok?
    ensures r.value.slide.enabled <==> s.enabled && !Expired(s, env.now)
    ensures r.value.slide.(enabled := s.enabled) == s
    ensures r.value.store.listing == st.listing
    ensures r.value.store.slides.Keys == st.slides.Keys + (if Expired(s, env.now) then {s.id} else {})
    ensures Expired(s, env.now) ==> r.value.store.slides[s.id] == EntryOf(r.value.slide)
    ensures forall id :: id in st.slides && (id != s.id || !Expired(s, env.now)) ==>
              r.value.store.slides[id] == st.slides[id]
  {
    var s' := CheckExpired(s, env.now);
    Ok(Loaded(s', if Expired(s, env.now) then Write(st, s') else st))
  }

  /**
   * Write then load: a slide whose fields all pass their setters and whose
   * directory is listed loads back as itself, with only the expiry rule
   * applied on top.
   */
  lemma WriteThenLoad(st: Store, s: Slide, env: Env)
    requires ValidSlide(s, st.listing, env.lim, env.userExists)
    ensures var r := Load(Write(st, s), s.id, env);
            r.Ok? && r.value.slide == CheckExpired(s, env.now)
  {
    FromConfOfWritten(s, st.listing, env.lim, env.userExists);
  }

  /**
   * Load then write: the store after a load already holds the loaded
   * slide, so writing it back changes nothing; the config on disk is
   * exactly the one `write` produces for the loaded slide.
   */
  lemma LoadThenWrite(st: Store, id: string, env: Env)
    requires Load(st, id, env).Ok?
    ensures var r := Load(st, id, env).value;
            && r.store.slides[id] == EntryOf(r.slide)
            && Write(r.store, r.slide) == r.store
  {
    var e := st.slides[id];
    ConfOfLoaded(id, e.markup, e.conf.value, st.listing, env.lim, env.userExists);
    var r := Load(st, id, env).value;
    assert r.store.slides[id] == EntryOf(r.slide);
    assert r.store.slides[id := EntryOf(r.slide)] == r.store.slides;
  }

  /** Every visible entry of the listing is a slide directory holding both files. */
  predicate ListedComplete(st: Store) {
    forall id :: id in Directory.SlidesIdList(st.listing) ==> id in st.slides
  }

  /**
   * Loads the slides `ids` in order, threading the store through the
   * write-backs of expired slides; the first failing load fails the whole
   * listing.
   */
  function LoadAll(ids: seq<string>, st: Store, env: Env): (r: Result<(seq<Slide>, Store)>)
    requires forall i :: 0 <= i < |ids| ==> ids[i] in st.slides
    ensures r.Ok? ==> |r.value.0| == |ids| && forall i :: 0 <= i < |ids| ==> r.value.0[i].id == ids[i]
    ensures r.Ok? ==> r.value.1.listing == st.listing && r.value.1.slides.Keys == st.slides.Keys
    ensures r.Ok? ==> IndicesValid(r.value.0, env.lim)
    ensures r.Err? ==> r.error != NotFound
    decreases |ids|
  {
    if |ids| == 0 then Ok(([], st))
    else
      var l :- Load(st, ids[0], env);
      var rest :- LoadAll(ids[1..], l.store, env);
      var out := [l.slide] + rest.0;
      assert forall i :: 0 < i < |out| ==> out[i] == rest.0[i - 1];
      Ok((out, rest.1))
  }

  /**
   * The listing stops at the first load that fails, with that load's
   * error, and otherwise starts with the slide that load returns.
   */
  lemma LoadAllFirst(ids: seq<string>, st: Store, env: Env)
    requires forall i :: 0 <= i < |ids| ==> ids[i] in st.slides
    requires |ids| > 0
    ensures Load(st, ids[0], env).Err? ==> LoadAll(ids, st, env) == Err(Load(st, ids[0], env).error)
    ensures LoadAll(ids, st, env).Ok? ==>
              Load(st, ids[0], env).Ok? && LoadAll(ids, st, env).value.0[0] == Load(st, ids[0], env).value.slide
  {
  }

  /** A load that fails anywhere along the threaded store makes the whole listing fail. */
  lemma {:induction false} LoadAllFailsOnAnyLoad(ids: seq<string>, st: Store, env: Env, k: nat)
    requires forall i :: 0 <= i < |ids| ==> ids[i] in st.slides
    requires k < |ids|
    requires LoadAll(ids[..k], st, env).Ok?
    requires Load(LoadAll(ids[..k], st, env).value.1, ids[k], env).Err?
    ensures LoadAll(ids, st, env).Err?
    decreases k
  {
    if k == 0 {
    } else {
      var l := Load(st, ids[0], env);
      assert ids[..k][0] == ids[0];
      assert ids[..k][1..] == ids[1..][..k-1];
      assert l.Ok?;
      LoadAllFailsOnAnyLoad(ids[1..], l.value.store, env, k - 1);
    }
  }

  /** Every slide in the storage, in listing order (the source's `slides_list`). */
  function SlidesList(st: Store, env: Env): (r: Result<(seq<Slide>, Store)>)
    requires ListedComplete(st)
    ensures r.Ok? ==> |r.value.0| == |Directory.SlidesIdList(st.listing)|
    ensures r.Ok? ==> forall i :: 0 <= i < |r.value.0| ==> r.value.0[i].id == Directory.SlidesIdList(st.listing)[i]
    ensures r.Ok? ==> IndicesValid(r.value.0, env.lim)
    ensures r.Err? ==> r.error != NotFound
  {
    LoadAll(Directory.SlidesIdList(st.listing), st, env)
  }

  /** Writes the slides in order, one `write` each. */
  function WriteAll(st: Store, ss: seq<Slide>): (r: Store)
    ensures r.listing == st.listing
    ensures r.slides.Keys == st.slides.Keys + set i | 0 <= i < |ss| :: ss[i].id
    decreases |ss|
  {
    if |ss| == 0 then st
    else
      var r := WriteAll(Write(st, ss[0]), ss[1..]);
      assert (set i | 0 <= i < |ss| :: ss[i].id) == {ss[0].id} + set i | 0 <= i < |ss[1..]| :: ss[1..][i].id;
      r
  }

  /**
   * With distinct ids, after writing the slides every one of them is
   * stored exactly as `write` leaves it, and every other slide's files are
   * untouched.
   */
  lemma {:induction false} WriteAllStores(st: Store, ss: seq<Slide>)
    requires UniqueIds(ss)
    ensures forall i :: 0 <= i < |ss| ==> WriteAll(st, ss).slides[ss[i].id] == EntryOf(ss[i])
    ensures forall id :: id in st.slides && (forall j :: 0 <= j < |ss| ==> ss[j].id != id) ==>
              WriteAll(st, ss).slides[id] == st.slides[id]
    decreases |ss|
  {
    if |ss| > 0 {
      var st' := Write(st, ss[0]);
      WriteAllStores(st', ss[1..]);
      forall i | 0 <= i < |ss|
        ensures WriteAll(st, ss).slides[ss[i].id] == EntryOf(ss[i])
      {
        if i > 0 {
          assert ss[i] == ss[1..][i-1];
        } else {
          assert forall j :: 0 <= j < |ss[1..]| ==> ss[1..][j].id != ss[0].id;
        }
      }
    }
  }

  /** The slides one reindex pass wrote, and the store it left. */
  datatype Reindexed = Reindexed(slides: seq<Slide>, store: Store)

  /**
   * The reindex pass end to end, with the kept slide's placement
   * corrected: list every slide, juggle the indices, and write every slide
   * back once with its final fields. The source writes each slide as the
   * pass goes; those intermediate writes are not modelled.
   */
  function Reindex(st: Store, keepId: string, env: Env): (r: Result<Reindexed>)
    requires ListedComplete(st)
    ensures r.Ok? ==> r.value.store.listing == st.listing
    ensures r.Ok? ==> |r.value.slides| == |Directory.SlidesIdList(st.listing)|
  {
    var loaded :- SlidesList(st, env);
    var j :- Juggle(loaded.0, keepId, env.lim);
    var written := Written(j);
    Ok(Reindexed(written, WriteAll(loaded.1, written)))
  }

  /**
   * After a successful pass (corrected placement) whose slides have
   * distinct ids, the store holds every written slide exactly as `write`
   * leaves it.
   */
  lemma ReindexStores(st: Store, keepId: string, env: Env)
    requires ListedComplete(st)
    requires Reindex(st, keepId, env).Ok?
    requires UniqueIds(Reindex(st, keepId, env).value.slides)
    ensures var r := Reindex(st, keepId, env).value;
            forall i :: 0 <= i < |r.slides| ==> r.store.slides[r.slides[i].id] == EntryOf(r.slides[i])
  {
    var loaded := SlidesList(st, env).value;
    var written := Written(Juggle(loaded.0, keepId, env.lim).value);
    assert Reindex(st, keepId, env).value == Reindexed(written, WriteAll(loaded.1, written));
    WriteAllStores(loaded.1, written);
  }

  /**
   * After a successful pass the written slides carry the indices 0..N-1,
   * each exactly once, where N is the number of listed slides, whether or
   * not a slide was kept.
   */
  lemma ReindexDense(st: Store, keepId: string, env: Env)
    requires ListedComplete(st)
    requires Reindex(st, keepId, env).Ok?
    ensures DenseIndices(Reindex(st, keepId, env).value.slides)
  {
    var loaded := SlidesList(st, env).value;
    JuggleDense(loaded.0, keepId, env.lim);
  }

  /**
   * A listing without repeated identifiers gives a pass (corrected
   * placement) whose written slides have distinct identifiers, which is
   * what `ReindexStores` asks for.
   */
  lemma ReindexUniqueIds(st: Store, keepId: string, env: Env)
    requires ListedComplete(st)
    requires Reindex(st, keepId, env).Ok?
    requires Distinct(Directory.SlidesIdList(st.listing))
    ensures UniqueIds(Reindex(st, keepId, env).value.slides)
  {
    var loaded := SlidesList(st, env).value.0;
    var w := Reindex(st, keepId, env).value.slides;
    ReindexKeepsContent(st, keepId, env);
    assert Ids(loaded) == Directory.SlidesIdList(st.listing);
    UniqueIdsByContent(w, loaded);
  }

  /**
   * A successful pass (corrected placement) writes back exactly the listed
   * slides as loaded, each once, with only their indices changed.
   */
  lemma ReindexKeepsContent(st: Store, keepId: string, env: Env)
    requires ListedComplete(st)
    requires Reindex(st, keepId, env).Ok?
    ensures multiset(UnindexedAll(Reindex(st, keepId, env).value.slides)) == multiset(UnindexedAll(SlidesList(st, env).value.0))
  {
    var loaded := SlidesList(st, env).value;
    JuggleKeepsContent(loaded.0, keepId, env.lim);
  }
}
