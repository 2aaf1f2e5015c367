/**
 Keys derived from the master key file and cached under that file's identity. Callers open the file,
 then take the lock and look in the cache; in between, the file may be replaced.
 */
module KeyCache {
  import opened Prelude
  import opened Decimal

  // ---------------------------------------------------------------- the identity of a file

  datatype Stat = Stat(dev: uint64, ino: uint64, size: uint64, mtime: uint64, ctime: uint64,
                       mode: uint64, uid: uint64, mtimeNanos: uint64, ctimeNanos: uint64)

  function Fields(st: Stat): seq<uint64> {
    [st.dev, st.ino, st.size, st.mtime, st.ctime, st.mode, st.uid, st.mtimeNanos, st.ctimeNanos]
  }

  /** Each field in decimal behind a NUL. */
  function FieldsText(fields: seq<uint64>): Bytes {
    if fields == [] then [] else [0] + Digits(fields[0]) + FieldsText(fields[1..])
  }

  function Identity(path: Bytes, st: Stat): Bytes {
    path + FieldsText(Fields(st))
  }

  predicate NulFree(s: Bytes) {
    forall i :: 0 <= i < |s| ==> s[i] != 0
  }

  predicate NulLed(s: Bytes) {
    s != [] ==> s[0] == 0
  }

  /** A text splits in one way only into a part without NUL and a part led by one. */
  lemma SplitAtNul(a: Bytes, x: Bytes, b: Bytes, y: Bytes)
    requires NulFree(a) && NulFree(b) && NulLed(x) && NulLed(y) && a + x == b + y
    ensures a == b && x == y
  {
    var text := a + x;
    assert forall i :: 0 <= i < |a| ==> text[i] == a[i];
    assert text == b + y && forall i :: 0 <= i < |b| ==> text[i] == b[i];
    assert (x != [] ==> text[|a|] == 0) && (y != [] ==> text[|b|] == 0);
    assert |a| == |b|;
    assert a == (a + x)[..|a|] && b == (b + y)[..|b|];
    assert x == (a + x)[|a|..] && y == (b + y)[|b|..];
  }

  lemma {:induction false} FieldsInjective(a: seq<uint64>, b: seq<uint64>)
    requires FieldsText(a) == FieldsText(b)
    ensures a == b
  {
    if a != [] && b != [] {
      var da, db := Digits(a[0]), Digits(b[0]);
      var ra, rb := FieldsText(a[1..]), FieldsText(b[1..]);
      assert [0] + da + ra == [0] + (da + ra) && [0] + db + rb == [0] + (db + rb);
      assert da + ra == FieldsText(a)[1..] && db + rb == FieldsText(b)[1..];
      SplitAtNul(da, ra, db, rb);
      DigitsRoundTrip(a[0]);
      DigitsRoundTrip(b[0]);
      FieldsInjective(a[1..], b[1..]);
      assert a == [a[0]] + a[1..] && b == [b[0]] + b[1..];
    }
  }

  /** Two files with one identity have the same path and the same status, field by field. */
  lemma IdentityInjective(p: Bytes, st: Stat, q: Bytes, tu: Stat)
    requires NulFree(p) && NulFree(q) && Identity(p, st) == Identity(q, tu)
    ensures p == q && st == tu
  {
    SplitAtNul(p, FieldsText(Fields(st)), q, FieldsText(Fields(tu)));
    FieldsInjective(Fields(st), Fields(tu));
    assert Fields(st)[0] == st.dev && Fields(st)[1] == st.ino && Fields(st)[2] == st.size && Fields(st)[3] == st.mtime;
    assert Fields(st)[4] == st.ctime && Fields(st)[5] == st.mode && Fields(st)[6] == st.uid;
    assert Fields(st)[7] == st.mtimeNanos && Fields(st)[8] == st.ctimeNanos;
  }

  // ---------------------------------------------------------------- one lookup

  /** A file as one open sees it. */
  datatype File = File(identity: Bytes, bytes: Bytes)

  datatype Cache<K> = Cache(identity: Bytes, key: Option<K>)

  function Empty<K>(): Cache<K> {
    Cache([], None)
  }

  predicate Acceptable(bytes: Bytes) {
    32 <= |bytes| <= 4096 && exists i :: 0 <= i < |bytes| && bytes[i] != 0
  }

  /** What makes a key: 32 to 4096 bytes, not all of them zero. */
  lemma AcceptableMaterial(bytes: Bytes)
    ensures Acceptable(bytes) <==> 32 <= |bytes| <= 4096 && exists b :: b in bytes && b != 0
  {
    if Acceptable(bytes) {
      var i :| 0 <= i < |bytes| && bytes[i] != 0;
      assert bytes[i] in bytes;
    }
  }

  /** Reading and locking the material may fail whatever the file holds. */
  function Load(file: File, readable: bool): Option<Bytes> {
    if readable && Acceptable(file.bytes) then Some(file.bytes) else None
  }

  datatype TokenKeys<T> = TokenKeys(v3: T, v4: T)

  function DeriveBoth<T>(v3: Bytes -> Option<T>, v4: Bytes -> Option<T>, bytes: Bytes): Option<TokenKeys<T>> {
    if v3(bytes).Some? && v4(bytes).Some? then Some(TokenKeys(v3(bytes).value, v4(bytes).value)) else None
  }

  datatype Looked<K> = Looked(cache: Cache<K>, result: Option<K>)

  /** What one call returns and leaves in the cache. */
  function Lookup<K>(cache: Cache<K>, source: Option<File>, readable: bool, derive: Bytes -> Option<K>): Looked<K> {
    if source.Some? && cache.key.Some? && source.value.identity == cache.identity then Looked(cache, cache.key)
    else
      var material := if source.Some? then Load(source.value, readable) else None;
      var key := if material.Some? then derive(material.value) else None;
      if key.None? then Looked(Empty(), None) else Looked(Cache(source.value.identity, key), key)
  }

  /** The static variables behind the lock of the access-token keys. */
  class TokenKeyCache<T> {
    var identity: Bytes
    var keys: Option<TokenKeys<T>>

    constructor ()
      ensures Value() == Empty()
    {
      identity, keys := [], None;
    }

    function Value(): Cache<TokenKeys<T>>
      reads this
    {
      Cache(identity, keys)
    }

    method Get(source: Option<File>, readable: bool, v3: Bytes -> Option<T>, v4: Bytes -> Option<T>)
      returns (result: Option<TokenKeys<T>>)
      modifies this
      ensures Looked(Value(), result) == Lookup(old(Value()), source, readable, bytes => DeriveBoth(v3, v4, bytes))
    {
      if source.None? {
        identity, keys := [], None;
        return None;
      }
      if keys.Some? && source.value.identity == identity {
        return keys;
      }
      var material := Load(source.value, readable);
      var k3 := if material.Some? then v3(material.value) else None;
      var k4 := if material.Some? then v4(material.value) else None;
      if k3.None? || k4.None? {
        identity, keys := [], None;
        return None;
      }
      keys := Some(TokenKeys(k3.value, k4.value));
      identity := source.value.identity;
      return keys;
    }
  }

  /** The static variables behind the lock of the signing secret's box key. */
  class BoxKeyCache<K> {
    var identity: Bytes
    var key: Option<K>

    constructor ()
      ensures Value() == Empty()
    {
      identity, key := [], None;
    }

    function Value(): Cache<K>
      reads this
    {
      Cache(identity, key)
    }

    method Get(source: Option<File>, readable: bool, derive: Bytes -> Option<K>) returns (result: Option<K>)
      modifies this
      ensures Looked(Value(), result) == Lookup(old(Value()), source, readable, derive)
    {
      if source.Some? && source.value.identity == identity && key.Some? {
        return key;
      }
      var material := if source.Some? then Load(source.value, readable) else None;
      if material.None? {
        identity, key := [], None;
        return None;
      }
      var fresh' := derive(material.value);
      if fresh'.None? {
        identity, key := [], None;
        return None;
      }
      key := fresh';
      identity := source.value.identity;
      return key;
    }
  }

  // ---------------------------------------------------------------- every interleaving

  /** A call between its open and its return. */
  datatype Call<K> = Opened(file: Option<File>) | Returned(file: Option<File>, result: Option<K>)

  /** `seen` is every file that was ever on the disk. */
  datatype World<K> = World(disk: map<Bytes, File>, cache: Cache<K>, calls: map<nat, Call<K>>, seen: set<File>)

  datatype Event =
    | Replace(path: Bytes, file: File)
    | Remove(path: Bytes)
    | Open(call: nat, path: Bytes)
    | Finish(call: nat, readable: bool)

  function Start<K>(): World<K> {
    World(map[], Empty(), map[], {})
  }

  function Step<K>(w: World<K>, event: Event, derive: Bytes -> Option<K>): World<K> {
    match event
    case Replace(path, file) => w.(disk := w.disk[path := file], seen := w.seen + {file})
    case Remove(path) => w.(disk := w.disk - {path})
    case Open(call, path) =>
      if call in w.calls then w
      else if path == [] then w.(calls := w.calls[call := Returned(None, None)])
      else w.(calls := w.calls[call := Opened(if path in w.disk then Some(w.disk[path]) else None)])
    case Finish(call, readable) =>
      if call in w.calls && w.calls[call].Opened? then
        var looked := Lookup(w.cache, w.calls[call].file, readable, derive);
        w.(cache := looked.cache, calls := w.calls[call := Returned(w.calls[call].file, looked.result)])
      else w
  }

  function Run<K>(events: seq<Event>, derive: Bytes -> Option<K>): World<K> {
    if events == [] then Start()
    else Step(Run(events[..|events| - 1], derive), events[|events| - 1], derive)
  }

  /** A file identity determines the file's content. */
  ghost predicate IdentityDeterminesContent(seen: set<File>) {
    forall f, g :: f in seen && g in seen && f.identity == g.identity ==> f.bytes == g.bytes
  }

  ghost predicate CacheSound<K(!new)>(cache: Cache<K>, seen: set<File>, derive: Bytes -> Option<K>) {
    cache.key.Some? ==>
      && (exists f :: f in seen && f.identity == cache.identity)
      && (forall f :: f in seen && f.identity == cache.identity ==> derive(f.bytes) == cache.key)
  }

  ghost predicate CallSound<K(!new)>(call: Call<K>, seen: set<File>, derive: Bytes -> Option<K>) {
    && (call.file.Some? ==> call.file.value in seen)
    && (call.Returned? && call.result.Some? ==>
          && call.file.Some? && call.result == derive(call.file.value.bytes)
          && 32 <= |call.file.value.bytes| <= 4096 && exists b :: b in call.file.value.bytes && b != 0)
  }

  ghost predicate CachedAcceptable<K(!new)>(cache: Cache<K>, seen: set<File>) {
    cache.key.Some? ==> forall f :: f in seen && f.identity == cache.identity ==> Acceptable(f.bytes)
  }

  ghost predicate Sound<K(!new)>(w: World<K>, derive: Bytes -> Option<K>) {
    && CacheSound(w.cache, w.seen, derive)
    && CachedAcceptable(w.cache, w.seen)
    && (forall path :: path in w.disk ==> w.disk[path] in w.seen)
    && (forall c :: c in w.calls ==> CallSound(w.calls[c], w.seen, derive))
  }

  lemma LookupSound<K(!new)>(cache: Cache<K>, source: Option<File>, readable: bool, seen: set<File>, derive: Bytes -> Option<K>)
    requires CacheSound(cache, seen, derive) && CachedAcceptable(cache, seen) && IdentityDeterminesContent(seen)
    requires source.Some? ==> source.value in seen
    ensures var looked := Lookup(cache, source, readable, derive);
            && CacheSound(looked.cache, seen, derive) && CachedAcceptable(looked.cache, seen)
            && CallSound(Returned(source, looked.result), seen, derive)
  {
    if source.Some? {
      AcceptableMaterial(source.value.bytes);
    }
  }

  lemma SeenGrows<K(!new)>(w: World<K>, file: File, derive: Bytes -> Option<K>)
    requires Sound(w, derive) && IdentityDeterminesContent(w.seen + {file})
    ensures CacheSound(w.cache, w.seen + {file}, derive) && CachedAcceptable(w.cache, w.seen + {file})
    ensures forall c :: c in w.calls ==> CallSound(w.calls[c], w.seen + {file}, derive)
  {
    if w.cache.key.Some? {
      var f :| f in w.seen && f.identity == w.cache.identity;
      assert f in w.seen + {file} && derive(f.bytes) == w.cache.key && Acceptable(f.bytes);
    }
    assert forall c :: c in w.calls ==> CallSound(w.calls[c], w.seen, derive);
  }

  lemma StepKeepsSound<K(!new)>(w: World<K>, event: Event, derive: Bytes -> Option<K>)
    requires Sound(w, derive) && IdentityDeterminesContent(Step(w, event, derive).seen)
    ensures Sound(Step(w, event, derive), derive) && w.seen <= Step(w, event, derive).seen
  {
    match event
    case Replace(path, file) => SeenGrows(w, file, derive);
    case Remove(_) =>
    case Open(_, _) =>
    case Finish(call, readable) =>
      if call in w.calls && w.calls[call].Opened? {
        assert CallSound(w.calls[call], w.seen, derive);
        LookupSound(w.cache, w.calls[call].file, readable, w.seen, derive);
      }
  }

  lemma {:induction false} SeenOnlyGrows<K(!new)>(events: seq<Event>, derive: Bytes -> Option<K>)
    requires events != []
    ensures Run(events[..|events| - 1], derive).seen <= Run(events, derive).seen
  {
  }

  /**
   In every interleaving of callers and file replacements the cached key is the one derived from the
   material its identity names, and each call returns the key of the very file it opened, or nothing.
   */
  lemma {:induction false} EveryRunSound<K(!new)>(events: seq<Event>, derive: Bytes -> Option<K>)
    requires IdentityDeterminesContent(Run(events, derive).seen)
    ensures Sound(Run(events, derive), derive)
  {
    if events != [] {
      SeenOnlyGrows(events, derive);
      EveryRunSound(events[..|events| - 1], derive);
      StepKeepsSound(Run(events[..|events| - 1], derive), events[|events| - 1], derive);
    }
  }

  /** A call that opened an acceptable, readable file whose key derives gets that key, cached or not. */
  lemma ReadableFileAnswers<K(!new)>(cache: Cache<K>, file: File, seen: set<File>, derive: Bytes -> Option<K>)
    requires CacheSound(cache, seen, derive) && file in seen
    requires 32 <= |file.bytes| <= 4096 && exists b :: b in file.bytes && b != 0
    ensures Lookup(cache, Some(file), true, derive).result == derive(file.bytes)
  {
    AcceptableMaterial(file.bytes);
  }

  /** Without a cached key for it, a file that is missing, unreadable or unfit gives nothing and empties the cache. */
  lemma NothingWithoutMaterial<K(!new)>(cache: Cache<K>, source: Option<File>, readable: bool, derive: Bytes -> Option<K>)
    requires source.None? || (source.value.identity != cache.identity || cache.key.None?)
    requires source.None? || !readable || !(32 <= |source.value.bytes| <= 4096) || forall b :: b in source.value.bytes ==> b == 0
    ensures Lookup(cache, source, readable, derive) == Looked(Cache([], None), None)
  {
    if source.Some? {
      AcceptableMaterial(source.value.bytes);
    }
  }

  // ---------------------------------------------------------------- one call among all the others

  /** No event opens or finishes the call. */
  predicate LeavesAlone(events: seq<Event>, call: nat) {
    forall i :: 0 <= i < |events| ==> !(events[i].Open? && events[i].call == call) && !(events[i].Finish? && events[i].call == call)
  }

  lemma {:induction false} NotYetOpened<K>(events: seq<Event>, call: nat, derive: Bytes -> Option<K>)
    requires LeavesAlone(events, call)
    ensures call !in Run(events, derive).calls
  {
    if events != [] {
      NotYetOpened(events[..|events| - 1], call, derive);
    }
  }

  lemma RunAppend<K>(events: seq<Event>, e: Event, derive: Bytes -> Option<K>)
    ensures Run(events + [e], derive) == Step(Run(events, derive), e, derive)
  {
    assert (events + [e])[..|events|] == events;
  }

  lemma {:induction false} StaysOpened<K>(events: seq<Event>, middle: seq<Event>, call: nat, derive: Bytes -> Option<K>)
    requires LeavesAlone(middle, call) && call in Run(events, derive).calls
    ensures call in Run(events + middle, derive).calls
    ensures Run(events + middle, derive).calls[call] == Run(events, derive).calls[call]
  {
    if middle == [] {
      assert events + middle == events;
    } else {
      var init, last := middle[..|middle| - 1], middle[|middle| - 1];
      StaysOpened(events, init, call, derive);
      RunAppend(events + init, last, derive);
      assert events + middle == events + init + [last];
    }
  }

  /** The file under a path, as an open would find it. */
  function OnDisk<K>(w: World<K>, path: Bytes): Option<File> {
    if path != [] && path in w.disk then Some(w.disk[path]) else None
  }

  /** A call that finishes after any number of other events looks up the file that was on the disk when it opened. */
  lemma CallLooksUp<K>(before: seq<Event>, call: nat, path: Bytes, middle: seq<Event>, readable: bool, derive: Bytes -> Option<K>)
    requires LeavesAlone(before, call) && LeavesAlone(middle, call) && path != []
    ensures var file := OnDisk(Run(before, derive), path);
            var w := Run(before + [Open(call, path)] + middle, derive);
            var last := Run(before + [Open(call, path)] + middle + [Finish(call, readable)], derive);
            call in last.calls && last.calls[call] == Returned(file, Lookup(w.cache, file, readable, derive).result)
            && last.seen == w.seen
  {
    NotYetOpened(before, call, derive);
    RunAppend(before, Open(call, path), derive);
    StaysOpened(before + [Open(call, path)], middle, call, derive);
    RunAppend(before + [Open(call, path)] + middle, Finish(call, readable), derive);
  }

  /**
   Whatever other callers and replacements come between, a call answers nothing or the key of the file that was
   under its path when it opened it; and it answers that key when the file is readable and fit.
   */
  lemma CallAnswersItsOpen<K(!new)>(before: seq<Event>, call: nat, path: Bytes, middle: seq<Event>, readable: bool,
                                    derive: Bytes -> Option<K>)
    requires LeavesAlone(before, call) && LeavesAlone(middle, call) && path != []
    requires IdentityDeterminesContent(Run(before + [Open(call, path)] + middle + [Finish(call, readable)], derive).seen)
    ensures var file := OnDisk(Run(before, derive), path);
            var last := Run(before + [Open(call, path)] + middle + [Finish(call, readable)], derive);
            && call in last.calls && last.calls[call].Returned?
            && (last.calls[call].result.Some? ==> file.Some? && last.calls[call].result == derive(file.value.bytes))
            && (file.Some? && readable && 32 <= |file.value.bytes| <= 4096 && (exists b :: b in file.value.bytes && b != 0) ==>
                  last.calls[call].result == derive(file.value.bytes))
  {
    var file := OnDisk(Run(before, derive), path);
    var events := before + [Open(call, path)] + middle;
    CallLooksUp(before, call, path, middle, readable, derive);
    EveryRunSound(events, derive);
    EveryRunSound(events + [Finish(call, readable)], derive);
    var last := Run(events + [Finish(call, readable)], derive);
    assert CallSound(last.calls[call], last.seen, derive);
    if file.Some? && readable && 32 <= |file.value.bytes| <= 4096 && exists b :: b in file.value.bytes && b != 0 {
      ReadableFileAnswers(Run(events, derive).cache, file.value, last.seen, derive);
    }
  }

  /** An empty path opens nothing. */
  lemma EmptyPathAnswersNothing<K>(before: seq<Event>, call: nat, derive: Bytes -> Option<K>)
    requires LeavesAlone(before, call)
    ensures var w := Run(before + [Open(call, [])], derive); call in w.calls && w.calls[call] == Returned(None, None)
  {
    NotYetOpened(before, call, derive);
    RunAppend(before, Open(call, []), derive);
  }
}
