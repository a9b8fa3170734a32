/** The two directories of the store (db/db.go) as tables from entry file
    names to entries, and every store operation as a function from the old
    tables to the new tables and the error it returns.  The class `Db.DiskDb`
    performs these steps on its fields and is proved to agree with them.

    An entry name is `key + ".json"`.  Go builds the entry path with
    `path.Join(dir, key)`; treating the path as the key itself is sound only
    for keys without `/` and `..`, which the source does not check. */
module Store {
  import opened Errors
  import opened Base64Url
  import opened Marks
  import opened Spans

  /** The extension of every entry file, from the JSON configuration. */
  const EntryFileExt: string := "json"

  /** A directory entry: a file with its bytes, or a sub-directory. */
  datatype Entry = File(data: Bytes) | Directory

  type Dir = map<string, Entry>

  /** The `marks` and `spans` sub-directories of the storage directory. */
  datatype Tables = Tables(marks: Dir, spans: Dir)

  /** The tables after an operation and the error it returned (None for nil). */
  datatype Step = Step(tables: Tables, err: Option<Error>)

  /** An encoder/decoder pair bound to one record type (the JSON codecs). */
  datatype Codec<!T> = Codec(encode: T -> Result<Bytes>, decode: Bytes -> Result<T>)

  /** Everything the store computes with but does not define itself. */
  datatype Env = Env(hashing: Hashing, markCodec: Codec<Mark>, spanCodec: Codec<Span>)

  /** The hypothesis that a codec encodes every record and decodes it back to
      the same value.  It is never built in: the lemmas that need it say so.
      For marks it includes the claim that a timestamp read back from JSON is
      the same instant with the same zone, which Go does not promise. */
  ghost predicate Lossless<T(!new)>(c: Codec<T>) {
    forall x :: c.encode(x).Success? && c.decode(c.encode(x).value) == Success(x)
  }

  /** `markEntryPath` / `spanEntryPath`, relative to their directory. */
  function EntryName(key: string): string {
    key + "." + EntryFileExt
  }

  /** Different keys never share an entry. */
  lemma EntryNameInjective(a: string, b: string)
    requires EntryName(a) == EntryName(b)
    ensures a == b
  {
    assert |a| == |b|;
    assert a == EntryName(a)[..|a|];
    assert b == EntryName(b)[..|b|];
  }

  /** `fileExists`: `os.Stat` succeeds, for files and directories alike. */
  predicate FileExists(dir: Dir, entry: string) {
    entry in dir
  }

  /** `decodeFromFile`: read the entry and decode it. */
  function DecodeFromFile<T>(codec: Codec<T>, dir: Dir, entry: string): Result<T> {
    if entry !in dir then Failure(NoSuchEntry(entry))
    else match dir[entry]
      case Directory => Failure(IsADirectory(entry))
      case File(data) => codec.decode(data)
  }

  /** The entry a span is stored in, or the error of computing its key. */
  function SpanEntry(h: Hashing, s: Span): Result<string> {
    match NameWithTimestampHash(h, s)
    case Failure(e) => Failure(e)
    case Success(k) => Success(EntryName(k))
  }

  /** `ReadDir` of `dir` returned `names`: every entry exactly once. */
  predicate IsListing(names: seq<string>, dir: Dir) {
    && (forall i :: 0 <= i < |names| ==> names[i] in dir)
    && (forall e :: e in dir ==> e in names)
    && (forall i, j :: 0 <= i < j < |names| ==> names[i] != names[j])
  }

  // ---------------------------------------------------------------- marks

  /** `createMarkEntry`: exclusive creation of an empty file. */
  function CreateMarkEntry(t: Tables, name: string): Step {
    var e := EntryName(name);
    if FileExists(t.marks, e) then Step(t, Some(EntryExists(e)))
    else Step(t.(marks := t.marks[e := File([])]), None)
  }

  /** `CreateMark`: reserve the entry, then write the encoded mark.  When the
      encoding fails the empty placeholder file is left behind. */
  function CreateMark(env: Env, t: Tables, m: Mark): (r: Step)
    ensures r.tables.spans == t.spans
    ensures EntryName(m.name) in t.marks ==> r == Step(t, Some(EntryExists(EntryName(m.name))))
    ensures EntryName(m.name) !in t.marks ==>
      && r.tables.marks.Keys == t.marks.Keys + {EntryName(m.name)}
      && (forall e :: e in t.marks ==> r.tables.marks[e] == t.marks[e])
    ensures r.err.None? <==> EntryName(m.name) !in t.marks && env.markCodec.encode(m).Success?
    ensures r.err.None? ==> r.tables.marks[EntryName(m.name)] == File(env.markCodec.encode(m).value)
    ensures EntryName(m.name) !in t.marks && env.markCodec.encode(m).Failure? ==>
      r.err == Some(env.markCodec.encode(m).error)
  {
    var reserved := CreateMarkEntry(t, m.name);
    if reserved.err.Some? then reserved
    else match env.markCodec.encode(m)
      case Failure(e) => Step(reserved.tables, Some(e))
      case Success(data) =>
        Step(reserved.tables.(marks := reserved.tables.marks[EntryName(m.name) := File(data)]), None)
  }

  /** `DeleteMark`: remove the entry of exactly that name, if there is one. */
  function DeleteMark(t: Tables, name: string): (r: Step)
    ensures r.tables.spans == t.spans
    ensures r.err.None? <==> EntryName(name) in t.marks
    ensures r.err.Some? ==> r == Step(t, Some(MarkNotFound(name)))
    ensures r.tables.marks.Keys == t.marks.Keys - {EntryName(name)}
    ensures forall e :: e in r.tables.marks ==> r.tables.marks[e] == t.marks[e]
  {
    var e := EntryName(name);
    if !FileExists(t.marks, e) then Step(t, Some(MarkNotFound(name)))
    else Step(t.(marks := t.marks - {e}), None)
  }

  /** `GetMark`: decode the entry of exactly that name. */
  function GetMark(env: Env, t: Tables, name: string): (r: Result<Mark>)
    ensures EntryName(name) !in t.marks ==> r == Failure(MarkNotFound(name))
    ensures EntryName(name) in t.marks && t.marks[EntryName(name)].Directory? ==>
      r == Failure(IsADirectory(EntryName(name)))
    ensures EntryName(name) in t.marks && t.marks[EntryName(name)].File? ==>
      r == env.markCodec.decode(t.marks[EntryName(name)].data)
    ensures r.Success? ==>
      EntryName(name) in t.marks && t.marks[EntryName(name)].File?
      && env.markCodec.decode(t.marks[EntryName(name)].data) == r
  {
    var e := EntryName(name);
    if !FileExists(t.marks, e) then Failure(MarkNotFound(name))
    else DecodeFromFile(env.markCodec, t.marks, e)
  }

  /** A successful `CreateMark(m)` makes `GetMark(m.name)` return `m`. */
  lemma CreateMarkThenGetMark(env: Env, t: Tables, m: Mark)
    requires Lossless(env.markCodec)
    requires CreateMark(env, t, m).err.None?
    ensures GetMark(env, CreateMark(env, t, m).tables, m.name) == Success(m)
  {
  }

  /** A second `CreateMark` of the same name fails and leaves the first mark
      as it was. */
  lemma CreateMarkTwice(env: Env, t: Tables, m: Mark, m': Mark)
    requires m'.name == m.name
    requires CreateMark(env, t, m).err.None?
    ensures var t1 := CreateMark(env, t, m).tables;
      CreateMark(env, t1, m') == Step(t1, Some(EntryExists(EntryName(m.name))))
  {
  }

  /** After `DeleteMark(name)`, `GetMark(name)` reports that it does not exist. */
  lemma DeleteMarkThenGetMark(env: Env, t: Tables, name: string)
    ensures GetMark(env, DeleteMark(t, name).tables, name) == Failure(MarkNotFound(name))
  {
  }

  /** What `decodeAllInDir` collects: one item per entry that is not a
      directory, None for an entry that failed, and an error that is
      overwritten on every step, so that only the last file's error survives. */
  datatype Listing<T> = Listing(items: seq<Option<T>>, err: Option<Error>)

  /** `decodeAllInDir`, as written: it does not stop at a decode error. */
  function DecodeAllInDir<T>(codec: Codec<T>, dir: Dir, names: seq<string>): Listing<T>
    decreases |names|
  {
    if names == [] then Listing([], None)
    else
      var prev := DecodeAllInDir(codec, dir, names[..|names| - 1]);
      var e := names[|names| - 1];
      if e in dir && dir[e].Directory? then prev
      else match DecodeFromFile(codec, dir, e)
        case Success(x) => Listing(prev.items + [Some(x)], None)
        case Failure(err) => Listing(prev.items + [None], Some(err))
  }

  /** The entries of `names` that are not directories, in order. */
  function FileEntries(dir: Dir, names: seq<string>): seq<string>
    decreases |names|
  {
    if names == [] then []
    else
      var prev := FileEntries(dir, names[..|names| - 1]);
      var e := names[|names| - 1];
      if e in dir && dir[e].Directory? then prev else prev + [e]
  }

  function ValueOf<T>(r: Result<T>): Option<T> {
    match r
    case Success(x) => Some(x)
    case Failure(_) => None
  }

  function ErrorOf<T>(r: Result<T>): Option<Error> {
    match r
    case Success(_) => None
    case Failure(e) => Some(e)
  }

  /** `decodeAllInDir` returns one item per file, in listing order, and the
      error of the LAST file only: an earlier decode error is lost. */
  lemma {:induction false} DecodeAllInDirResult<T>(codec: Codec<T>, dir: Dir, names: seq<string>)
    ensures var l := DecodeAllInDir(codec, dir, names);
      var files := FileEntries(dir, names);
      && |l.items| == |files|
      && (forall j :: 0 <= j < |files| ==> l.items[j] == ValueOf(DecodeFromFile(codec, dir, files[j])))
      && l.err == (if files == [] then None else ErrorOf(DecodeFromFile(codec, dir, files[|files| - 1])))
    decreases |names|
  {
    if names != [] {
      DecodeAllInDirResult(codec, dir, names[..|names| - 1]);
    }
  }

  /** The defect in one picture: a file that fails to decode followed by one
      that decodes gives a nil item and no error. */
  lemma EarlierDecodeErrorIsLost<T>(codec: Codec<T>, dir: Dir, a: string, b: string)
    requires a in dir && dir[a].File? && codec.decode(dir[a].data).Failure?
    requires b in dir && dir[b].File? && codec.decode(dir[b].data).Success?
    ensures DecodeAllInDir(codec, dir, [a, b]) == Listing([None, Some(codec.decode(dir[b].data).value)], None)
  {
    assert [a, b][..1] == [a];
    assert [a][..0] == [];
    assert DecodeAllInDir(codec, dir, [a]) == Listing([None], Some(codec.decode(dir[a].data).error));
  }

  /** `GetAllMarks`. */
  function GetAllMarks(env: Env, t: Tables, names: seq<string>): Listing<Mark> {
    DecodeAllInDir(env.markCodec, t.marks, names)
  }

  // ---------------------------------------------------------------- spans

  /** `CreateSpan`: fails if the span's key is taken, otherwise adds exactly
      that entry. */
  function CreateSpan(env: Env, t: Tables, s: Span): (r: Step)
    ensures r.tables.marks == t.marks
    ensures r.err.Some? ==> r.tables == t
    ensures r.err.None? <==>
      SpanEntry(env.hashing, s).Success? && SpanEntry(env.hashing, s).value !in t.spans
      && env.spanCodec.encode(s).Success?
    ensures r.err.None? ==>
      && r.tables.spans.Keys == t.spans.Keys + {SpanEntry(env.hashing, s).value}
      && r.tables.spans == t.spans[SpanEntry(env.hashing, s).value := File(env.spanCodec.encode(s).value)]
    ensures SpanEntry(env.hashing, s).Success? && SpanEntry(env.hashing, s).value in t.spans ==>
      r.err == Some(SpanExists(s.name))
    ensures SpanEntry(env.hashing, s).Failure? ==> r.err == Some(SpanEntry(env.hashing, s).error)
    ensures SpanEntry(env.hashing, s).Success? && SpanEntry(env.hashing, s).value !in t.spans && env.spanCodec.encode(s).Failure? ==>
      r.err == Some(env.spanCodec.encode(s).error)
  {
    match NameWithTimestampHash(env.hashing, s)
    case Failure(e) => Step(t, Some(e))
    case Success(key) =>
      var e := EntryName(key);
      if FileExists(t.spans, e) then Step(t, Some(SpanExists(s.name)))
      else match env.spanCodec.encode(s)
        case Failure(err) => Step(t, Some(err))
        case Success(data) => Step(t.(spans := t.spans[e := File(data)]), None)
  }

  /** `UpdateSpan`: fails if the span's key is absent, otherwise rewrites that
      entry in place; the set of entries does not change. */
  function UpdateSpan(env: Env, t: Tables, s: Span): (r: Step)
    ensures r.tables.marks == t.marks
    ensures r.tables.spans.Keys == t.spans.Keys
    ensures r.err.Some? ==> r.tables == t
    ensures r.err.None? <==>
      SpanEntry(env.hashing, s).Success? && SpanEntry(env.hashing, s).value in t.spans
      && env.spanCodec.encode(s).Success?
    ensures r.err.None? ==>
      r.tables.spans == t.spans[SpanEntry(env.hashing, s).value := File(env.spanCodec.encode(s).value)]
    ensures SpanEntry(env.hashing, s).Success? && SpanEntry(env.hashing, s).value !in t.spans ==>
      r.err == Some(SpanNotFound(s.name))
    ensures SpanEntry(env.hashing, s).Failure? ==> r.err == Some(SpanEntry(env.hashing, s).error)
    ensures SpanEntry(env.hashing, s).Success? && SpanEntry(env.hashing, s).value in t.spans && env.spanCodec.encode(s).Failure? ==>
      r.err == Some(env.spanCodec.encode(s).error)
  {
    match NameWithTimestampHash(env.hashing, s)
    case Failure(e) => Step(t, Some(e))
    case Success(key) =>
      var e := EntryName(key);
      if !FileExists(t.spans, e) then Step(t, Some(SpanNotFound(s.name)))
      else match env.spanCodec.encode(s)
        case Failure(err) => Step(t, Some(err))
        case Success(data) => Step(t.(spans := t.spans[e := File(data)]), None)
  }

  /** `GetSpan`: decode the entry of a full key (name and hash). */
  function GetSpan(env: Env, t: Tables, key: string): (r: Result<Span>)
    ensures EntryName(key) !in t.spans ==> r == Failure(NoSuchEntry(EntryName(key)))
    ensures EntryName(key) in t.spans && t.spans[EntryName(key)].Directory? ==>
      r == Failure(IsADirectory(EntryName(key)))
    ensures EntryName(key) in t.spans && t.spans[EntryName(key)].File? ==>
      r == env.spanCodec.decode(t.spans[EntryName(key)].data)
    ensures r.Success? ==> t.spans[EntryName(key)].File? && env.spanCodec.decode(t.spans[EntryName(key)].data) == r
  {
    DecodeFromFile(env.spanCodec, t.spans, EntryName(key))
  }

  /** A successful `CreateSpan(s)` makes `GetSpan` of the span's key return `s`. */
  lemma CreateSpanThenGetSpan(env: Env, t: Tables, s: Span)
    requires Lossless(env.spanCodec)
    requires CreateSpan(env, t, s).err.None?
    ensures GetSpan(env, CreateSpan(env, t, s).tables, NameWithTimestampHash(env.hashing, s).value) == Success(s)
  {
  }

  /** The loop of `GetAllSpans`: decode every entry in listing order and stop
      at the first failure; directories are not skipped. */
  function ReadAll<T>(codec: Codec<T>, dir: Dir, names: seq<string>): Result<seq<T>>
    decreases |names|
  {
    if names == [] then Success([])
    else match ReadAll(codec, dir, names[..|names| - 1])
      case Failure(e) => Failure(e)
      case Success(xs) =>
        match DecodeFromFile(codec, dir, names[|names| - 1])
        case Failure(e) => Failure(e)
        case Success(x) => Success(xs + [x])
  }

  /** `GetAllSpans`. */
  function GetAllSpans(env: Env, t: Tables, names: seq<string>): Result<seq<Span>> {
    ReadAll(env.spanCodec, t.spans, names)
  }

  /** A listing succeeds exactly when every entry decodes, and then holds one
      decoded record per entry, in listing order. */
  lemma {:induction false} ReadAllSucceeds<T>(codec: Codec<T>, dir: Dir, names: seq<string>)
    ensures ReadAll(codec, dir, names).Success? <==>
      forall i :: 0 <= i < |names| ==> DecodeFromFile(codec, dir, names[i]).Success?
    ensures ReadAll(codec, dir, names).Success? ==>
      var xs := ReadAll(codec, dir, names).value;
      |xs| == |names| && forall i :: 0 <= i < |names| ==> DecodeFromFile(codec, dir, names[i]) == Success(xs[i])
    decreases |names|
  {
    if names != [] {
      var init := names[..|names| - 1];
      ReadAllSucceeds(codec, dir, init);
      assert forall i :: 0 <= i < |init| ==> init[i] == names[i];
    }
  }

  /** A failed listing reports the error of the first entry that fails. */
  lemma {:induction false} ReadAllFirstError<T>(codec: Codec<T>, dir: Dir, names: seq<string>)
    requires ReadAll(codec, dir, names).Failure?
    ensures exists k :: (0 <= k < |names|
      && DecodeFromFile(codec, dir, names[k]) == Failure(ReadAll(codec, dir, names).error)
      && forall i :: 0 <= i < k ==> DecodeFromFile(codec, dir, names[i]).Success?)
    decreases |names|
  {
    var init := names[..|names| - 1];
    assert forall i :: 0 <= i < |init| ==> init[i] == names[i];
    if ReadAll(codec, dir, init).Failure? {
      ReadAllFirstError(codec, dir, init);
      var k :| 0 <= k < |init|
        && DecodeFromFile(codec, dir, init[k]) == Failure(ReadAll(codec, dir, init).error)
        && forall i :: 0 <= i < k ==> DecodeFromFile(codec, dir, init[i]).Success?;
      assert DecodeFromFile(codec, dir, names[k]) == Failure(ReadAll(codec, dir, names).error);
    } else {
      ReadAllSucceeds(codec, dir, init);
      var k := |names| - 1;
      assert forall i :: 0 <= i < k ==> DecodeFromFile(codec, dir, names[i]).Success?;
    }
  }

  /** Once a prefix of the listing fails, the whole listing fails the same way. */
  lemma {:induction false} ReadAllPrefixFails<T>(codec: Codec<T>, dir: Dir, names: seq<string>, k: nat)
    requires k <= |names|
    requires ReadAll(codec, dir, names[..k]).Failure?
    ensures ReadAll(codec, dir, names) == ReadAll(codec, dir, names[..k])
    decreases |names| - k
  {
    if k < |names| {
      var init := names[..|names| - 1];
      assert init[..k] == names[..k];
      ReadAllPrefixFails(codec, dir, init, k);
    } else {
      assert names[..k] == names;
    }
  }

  /** `slices.DeleteFunc(spans, func(s) { return s.Name != name })`: the spans
      named `name`, in order. */
  function Matching(spans: seq<Span>, name: string): (r: seq<Span>)
    ensures forall x :: x in r ==> x in spans && x.name == name
    ensures forall x :: x in spans && x.name == name ==> x in r
    ensures |r| <= |spans|
  {
    if spans == [] then []
    else (if spans[0].name == name then [spans[0]] else []) + Matching(spans[1..], name)
  }

  /** Without a span of that name there is no match. */
  lemma {:induction false} MatchingNone(spans: seq<Span>, name: string)
    requires forall j :: 0 <= j < |spans| ==> spans[j].name != name
    ensures Matching(spans, name) == []
  {
    if spans != [] {
      assert forall j :: 0 <= j < |spans[1..]| ==> spans[1..][j] == spans[j + 1];
      MatchingNone(spans[1..], name);
    }
  }

  /** Two positions holding spans of that name make at least two matches. */
  lemma {:induction false} MatchingAtLeastTwo(spans: seq<Span>, name: string, i: nat, j: nat)
    requires i < j < |spans| && spans[i].name == name && spans[j].name == name
    ensures |Matching(spans, name)| >= 2
  {
    if i == 0 {
      assert spans[1..][j - 1] == spans[j];
      assert spans[j] in Matching(spans[1..], name);
    } else {
      MatchingAtLeastTwo(spans[1..], name, i - 1, j - 1);
    }
  }

  /** A span name held at exactly one position matches exactly that span. */
  lemma {:induction false} MatchingSingle(spans: seq<Span>, name: string, i: nat)
    requires i < |spans| && spans[i].name == name
    requires forall j :: 0 <= j < |spans| && j != i ==> spans[j].name != name
    ensures Matching(spans, name) == [spans[i]]
  {
    if i == 0 {
      assert forall j :: 0 <= j < |spans[1..]| ==> spans[1..][j] == spans[j + 1];
      MatchingNone(spans[1..], name);
    } else {
      assert spans[0].name != name;
      forall j | 0 <= j < |spans[1..]| && j != i - 1 ensures spans[1..][j].name != name {
        assert spans[1..][j] == spans[j + 1];
      }
      MatchingSingle(spans[1..], name, i - 1);
    }
  }

  /** The positions in `[x] + tail` of the matches built from those in `tail`:
      position 0 first when `x` matches, then each position one further on. */
  function ConsIndices(matches: bool, rest: seq<nat>): (idx: seq<nat>)
    ensures |idx| == (if matches then 1 else 0) + |rest|
  {
    var n := if matches then 1 else 0;
    seq(n + |rest|, k requires 0 <= k < n + |rest| => if k < n then 0 else rest[k - n] + 1)
  }

  lemma ConsIndicesSelect(x: Span, tail: seq<Span>, name: string, rest: seq<nat>, r': seq<Span>)
    requires |rest| == |r'|
    requires forall k :: 0 <= k < |rest| ==> rest[k] < |tail| && tail[rest[k]] == r'[k]
    ensures var idx := ConsIndices(x.name == name, rest);
      var r := (if x.name == name then [x] else []) + r';
      forall k :: 0 <= k < |idx| ==> idx[k] < |[x] + tail| && ([x] + tail)[idx[k]] == r[k]
  {
    var idx := ConsIndices(x.name == name, rest);
    var n := if x.name == name then 1 else 0;
    forall k | 0 <= k < |idx| ensures idx[k] < |[x] + tail| && ([x] + tail)[idx[k]] == ((if x.name == name then [x] else []) + r')[k] {
      if k >= n {
        assert ([x] + tail)[rest[k - n] + 1] == tail[rest[k - n]];
      }
    }
  }

  lemma ConsIndicesIncrease(matches: bool, rest: seq<nat>)
    requires forall k, l :: 0 <= k < l < |rest| ==> rest[k] < rest[l]
    ensures var idx := ConsIndices(matches, rest);
      forall k, l :: 0 <= k < l < |idx| ==> idx[k] < idx[l]
  {
  }

  lemma ConsIndicesCover(x: Span, tail: seq<Span>, name: string, rest: seq<nat>)
    requires forall i :: 0 <= i < |tail| ==> (tail[i].name == name <==> i in rest)
    ensures var idx := ConsIndices(x.name == name, rest);
      forall i :: 0 <= i < |[x] + tail| ==> (([x] + tail)[i].name == name <==> i in idx)
  {
    var spans := [x] + tail;
    var idx := ConsIndices(x.name == name, rest);
    var n := if x.name == name then 1 else 0;
    forall i | 0 <= i < |spans| ensures spans[i].name == name <==> i in idx {
      if i > 0 {
        assert spans[i] == tail[i - 1];
        if i - 1 in rest {
          var k :| 0 <= k < |rest| && rest[k] == i - 1;
          assert idx[k + n] == i;
          assert i in idx;
        }
        if i in idx {
          var k :| 0 <= k < |idx| && idx[k] == i;
          assert k >= n && rest[k - n] == i - 1;
          assert i - 1 in rest;
        }
      } else if x.name == name {
        assert idx[0] == 0;
      } else {
        assert forall k :: 0 <= k < |idx| ==> idx[k] == rest[k] + 1;
      }
    }
  }

  /** The matches are the listing's spans of that name and no others, in
      listing order: `idx` gives, for each match, its position in the
      listing, increasing, and holds every position of a span of that name.
      So the number `TooManySpans` reports is the number of such spans. */
  lemma {:induction false} MatchingPositions(spans: seq<Span>, name: string) returns (idx: seq<nat>)
    ensures var r := Matching(spans, name);
      && |idx| == |r|
      && (forall k :: 0 <= k < |idx| ==> idx[k] < |spans| && spans[idx[k]] == r[k])
      && (forall k, l :: 0 <= k < l < |idx| ==> idx[k] < idx[l])
      && (forall i :: 0 <= i < |spans| ==> (spans[i].name == name <==> i in idx))
  {
    if spans == [] {
      idx := [];
    } else {
      var rest := MatchingPositions(spans[1..], name);
      assert spans == [spans[0]] + spans[1..];
      ConsIndicesSelect(spans[0], spans[1..], name, rest, Matching(spans[1..], name));
      ConsIndicesIncrease(spans[0].name == name, rest);
      ConsIndicesCover(spans[0], spans[1..], name, rest);
      idx := ConsIndices(spans[0].name == name, rest);
    }
  }

  /** `DeleteSpan`, as written.  With no span of that name Go indexes an empty
      slice (or dereferences a nil span), a run-time panic: the model returns
      IndexOutOfRange and changes nothing at that point. */
  function DeleteSpan(env: Env, t: Tables, name: string, names: seq<string>): Step {
    match GetAllSpans(env, t, names)
    case Failure(e) => Step(t, Some(e))
    case Success(all) =>
      var matching := Matching(all, name);
      if |matching| > 1 then Step(t, Some(TooManySpans(|matching|, name)))
      else if |matching| == 0 then Step(t, Some(IndexOutOfRange))
      else RemoveSpan(env, t, matching[0])
  }

  /** The tail of `DeleteSpan` once the one span is found: an open span's start
      mark is deleted first, then the span's entry is removed.  The two steps
      are not atomic: a failure after the first leaves the mark deleted. */
  function RemoveSpan(env: Env, t: Tables, s: Span): Step {
    var cleared := if s.end.None? then DeleteMark(t, s.start.name) else Step(t, None);
    if cleared.err.Some? then cleared
    else match NameWithTimestampHash(env.hashing, s)
      case Failure(e) => Step(cleared.tables, Some(e))
      case Success(key) =>
        var e := EntryName(key);
        if e in cleared.tables.spans then Step(cleared.tables.(spans := cleared.tables.spans - {e}), None)
        else Step(cleared.tables, Some(NoSuchEntry(e)))
  }

  /** When the listing fails, DeleteSpan returns its error and deletes
      nothing. */
  lemma DeleteSpanListingFails(env: Env, t: Tables, name: string, names: seq<string>)
    requires GetAllSpans(env, t, names).Failure?
    ensures DeleteSpan(env, t, name, names) == Step(t, Some(GetAllSpans(env, t, names).error))
  {
  }

  /** Two entries holding spans of the same name: DeleteSpan fails and
      deletes nothing.  Once every entry decodes, the error is TooManySpans
      with the number of spans of that name; before that, it is the
      listing's error. */
  lemma DeleteSpanAmbiguous(env: Env, t: Tables, name: string, names: seq<string>, i: nat, j: nat)
    requires i < j < |names|
    requires DecodeFromFile(env.spanCodec, t.spans, names[i]).Success?
    requires DecodeFromFile(env.spanCodec, t.spans, names[i]).value.name == name
    requires DecodeFromFile(env.spanCodec, t.spans, names[j]).Success?
    requires DecodeFromFile(env.spanCodec, t.spans, names[j]).value.name == name
    ensures DeleteSpan(env, t, name, names).tables == t
    ensures DeleteSpan(env, t, name, names).err.Some?
    ensures GetAllSpans(env, t, names).Success? ==>
      DeleteSpan(env, t, name, names).err ==
        Some(TooManySpans(|Matching(GetAllSpans(env, t, names).value, name)|, name))
    ensures GetAllSpans(env, t, names).Failure? ==>
      DeleteSpan(env, t, name, names).err == Some(GetAllSpans(env, t, names).error)
  {
    ReadAllSucceeds(env.spanCodec, t.spans, names);
    if GetAllSpans(env, t, names).Success? {
      MatchingAtLeastTwo(GetAllSpans(env, t, names).value, name, i, j);
    }
  }

  /** The defect: when every entry decodes and none is named `name`,
      DeleteSpan reaches the unguarded index. */
  lemma DeleteSpanWithoutMatch(env: Env, t: Tables, name: string, names: seq<string>)
    requires forall i :: 0 <= i < |names| ==> DecodeFromFile(env.spanCodec, t.spans, names[i]).Success?
    requires forall i :: 0 <= i < |names| ==> DecodeFromFile(env.spanCodec, t.spans, names[i]).value.name != name
    ensures DeleteSpan(env, t, name, names) == Step(t, Some(IndexOutOfRange))
  {
    ReadAllSucceeds(env.spanCodec, t.spans, names);
    MatchingNone(GetAllSpans(env, t, names).value, name);
  }

  /** With exactly one span of that name, DeleteSpan is the removal step for
      that span, wherever its file is stored. */
  lemma DeleteSpanSingle(env: Env, t: Tables, name: string, names: seq<string>, i: nat)
    requires i < |names|
    requires forall j :: 0 <= j < |names| ==> DecodeFromFile(env.spanCodec, t.spans, names[j]).Success?
    requires forall j :: 0 <= j < |names| && j != i ==> DecodeFromFile(env.spanCodec, t.spans, names[j]).value.name != name
    requires DecodeFromFile(env.spanCodec, t.spans, names[i]).value.name == name
    ensures DeleteSpan(env, t, name, names) == RemoveSpan(env, t, DecodeFromFile(env.spanCodec, t.spans, names[i]).value)
  {
    ReadAllSucceeds(env.spanCodec, t.spans, names);
    var all := GetAllSpans(env, t, names).value;
    MatchingSingle(all, name, i);
  }

  /** The removal step, case by case.  An open span's start mark is deleted
      first; when it is missing that error is returned and nothing changes.
      Then the entry at the span's recomputed key is removed.  When the key
      cannot be computed or names no entry, the error is returned and the
      start mark stays deleted: the two steps are not atomic. */
  lemma RemoveSpanEffect(env: Env, t: Tables, s: Span)
    ensures var r := RemoveSpan(env, t, s);
      var me := EntryName(s.start.name);
      var marks' := if s.end.None? then t.marks - {me} else t.marks;
      var k := SpanEntry(env.hashing, s);
      && (s.end.None? && me !in t.marks ==> r == Step(t, Some(MarkNotFound(s.start.name))))
      && (s.end.Some? || me in t.marks ==>
            && (k.Failure? ==> r == Step(t.(marks := marks'), Some(k.error)))
            && (k.Success? && k.value in t.spans ==> r == Step(Tables(marks', t.spans - {k.value}), None))
            && (k.Success? && k.value !in t.spans ==> r == Step(t.(marks := marks'), Some(NoSuchEntry(k.value)))))
  {
  }

  /** The common case: a span stored at its own key is removed, with its
      start mark when it is open and that mark is stored. */
  lemma DeleteSpanSingleAtKey(env: Env, t: Tables, name: string, names: seq<string>, i: nat)
    requires i < |names|
    requires forall j :: 0 <= j < |names| ==> DecodeFromFile(env.spanCodec, t.spans, names[j]).Success?
    requires forall j :: 0 <= j < |names| && j != i ==> DecodeFromFile(env.spanCodec, t.spans, names[j]).value.name != name
    requires var s := DecodeFromFile(env.spanCodec, t.spans, names[i]).value;
      s.name == name && SpanEntry(env.hashing, s) == Success(names[i])
    ensures var s := DecodeFromFile(env.spanCodec, t.spans, names[i]).value;
      var r := DeleteSpan(env, t, name, names);
      && (s.end.Some? ==> r == Step(t.(spans := t.spans - {names[i]}), None))
      && (s.end.None? && EntryName(s.start.name) in t.marks ==>
            r == Step(Tables(t.marks - {EntryName(s.start.name)}, t.spans - {names[i]}), None))
      && (s.end.None? && EntryName(s.start.name) !in t.marks ==>
            r == Step(t, Some(MarkNotFound(s.start.name))))
  {
    DeleteSpanSingle(env, t, name, names, i);
    RemoveSpanEffect(env, t, DecodeFromFile(env.spanCodec, t.spans, names[i]).value);
  }

  /** The non-atomic path: the one span of that name is open, its start mark
      is stored, but its file is not at its recomputed key.  The mark is
      deleted and then the removal fails. */
  lemma DeleteSpanMisplacedLosesMark(env: Env, t: Tables, name: string, names: seq<string>, i: nat)
    requires i < |names|
    requires forall j :: 0 <= j < |names| ==> DecodeFromFile(env.spanCodec, t.spans, names[j]).Success?
    requires forall j :: 0 <= j < |names| && j != i ==> DecodeFromFile(env.spanCodec, t.spans, names[j]).value.name != name
    requires var s := DecodeFromFile(env.spanCodec, t.spans, names[i]).value;
      && s.name == name && s.end.None? && EntryName(s.start.name) in t.marks
      && SpanEntry(env.hashing, s).Success? && SpanEntry(env.hashing, s).value !in t.spans
    ensures var s := DecodeFromFile(env.spanCodec, t.spans, names[i]).value;
      DeleteSpan(env, t, name, names) ==
        Step(t.(marks := t.marks - {EntryName(s.start.name)}), Some(NoSuchEntry(SpanEntry(env.hashing, s).value)))
  {
    DeleteSpanSingle(env, t, name, names, i);
    RemoveSpanEffect(env, t, DecodeFromFile(env.spanCodec, t.spans, names[i]).value);
  }

  // ---------------------------------------------------------------- invariant

  /** The mark entry `e` holds a mark whose own name leads back to `e`. */
  predicate MarkEntryOk(env: Env, marks: Dir, e: string) {
    && e in marks && marks[e].File?
    && var r := env.markCodec.decode(marks[e].data);
       r.Success? && EntryName(r.value.name) == e
  }

  /** `m` is stored, as it is, under its own name. */
  predicate HoldsMark(env: Env, marks: Dir, m: Mark) {
    var e := EntryName(m.name);
    e in marks && marks[e].File? && env.markCodec.decode(marks[e].data) == Success(m)
  }

  /** The span entry `e` holds a span named after its start mark and stored
      under its own key; if that span is open, its start mark is stored. */
  predicate SpanEntryOk(env: Env, t: Tables, e: string) {
    && e in t.spans && t.spans[e].File?
    && var r := env.spanCodec.decode(t.spans[e].data);
       && r.Success?
       && r.value.name == RemoveSuffix(r.value.start).name
       && SpanEntry(env.hashing, r.value) == Success(e)
       && (r.value.end.None? ==> HoldsMark(env, t.marks, r.value.start))
  }

  /** The state the commands keep: every mark and span entry is well formed,
      and every open span has its open mark. */
  predicate Consistent(env: Env, t: Tables) {
    && (forall e :: e in t.marks ==> MarkEntryOk(env, t.marks, e))
    && (forall e :: e in t.spans ==> SpanEntryOk(env, t, e))
  }

  /** The span stored at a well-formed entry. */
  function SpanAt(env: Env, t: Tables, e: string): Span
    requires SpanEntryOk(env, t, e)
  {
    env.spanCodec.decode(t.spans[e].data).value
  }

  /** A span entry stays well formed when the marks it depends on stay. */
  lemma SpanEntryOkFrame(env: Env, t: Tables, t': Tables, e: string)
    requires SpanEntryOk(env, t, e)
    requires e in t'.spans && t'.spans[e] == t.spans[e]
    requires SpanAt(env, t, e).end.None? ==>
      var me := EntryName(SpanAt(env, t, e).start.name);
      me in t'.marks && t'.marks[me] == t.marks[me]
    ensures SpanEntryOk(env, t', e)
  {
  }

  /** CreateMark keeps the store consistent (with a lossless mark codec). */
  lemma CreateMarkKeepsConsistent(env: Env, t: Tables, m: Mark)
    requires Lossless(env.markCodec)
    requires Consistent(env, t)
    ensures Consistent(env, CreateMark(env, t, m).tables)
    ensures CreateMark(env, t, m).err.None? ==> HoldsMark(env, CreateMark(env, t, m).tables.marks, m)
  {
    var t' := CreateMark(env, t, m).tables;
    if CreateMark(env, t, m).err.None? {
      forall e | e in t'.spans ensures SpanEntryOk(env, t', e) {
        assert SpanEntryOk(env, t, e);
        SpanEntryOkFrame(env, t, t', e);
      }
    }
  }

  /** Writing a span that is named after its start mark and whose open mark
      is stored keeps the store consistent (with a lossless span codec). */
  lemma WriteSpanKeepsConsistent(env: Env, t: Tables, s: Span, e0: string, data: Bytes)
    requires Consistent(env, t)
    requires env.spanCodec.decode(data) == Success(s)
    requires s.name == RemoveSuffix(s.start).name
    requires SpanEntry(env.hashing, s) == Success(e0)
    requires s.end.None? ==> HoldsMark(env, t.marks, s.start)
    ensures Consistent(env, t.(spans := t.spans[e0 := File(data)]))
  {
    var t' := t.(spans := t.spans[e0 := File(data)]);
    forall e | e in t'.spans ensures SpanEntryOk(env, t', e) {
      if e != e0 {
        assert SpanEntryOk(env, t, e);
        SpanEntryOkFrame(env, t, t', e);
      }
    }
  }

  lemma CreateSpanKeepsConsistent(env: Env, t: Tables, s: Span)
    requires Lossless(env.spanCodec)
    requires Consistent(env, t)
    requires s.name == RemoveSuffix(s.start).name
    requires s.end.None? ==> HoldsMark(env, t.marks, s.start)
    ensures Consistent(env, CreateSpan(env, t, s).tables)
  {
    if CreateSpan(env, t, s).err.None? {
      WriteSpanKeepsConsistent(env, t, s, SpanEntry(env.hashing, s).value, env.spanCodec.encode(s).value);
    }
  }

  lemma UpdateSpanKeepsConsistent(env: Env, t: Tables, s: Span)
    requires Lossless(env.spanCodec)
    requires Consistent(env, t)
    requires s.name == RemoveSuffix(s.start).name
    requires s.end.None? ==> HoldsMark(env, t.marks, s.start)
    ensures Consistent(env, UpdateSpan(env, t, s).tables)
  {
    if UpdateSpan(env, t, s).err.None? {
      WriteSpanKeepsConsistent(env, t, s, SpanEntry(env.hashing, s).value, env.spanCodec.encode(s).value);
    }
  }

  /** Two open spans stored under the same start mark are the same entry. */
  lemma OpenSpansShareMarkOnlyIfSame(env: Env, t: Tables, e1: string, e2: string)
    requires SpanEntryOk(env, t, e1) && SpanEntryOk(env, t, e2)
    requires SpanAt(env, t, e1).end.None? && SpanAt(env, t, e2).end.None?
    requires EntryName(SpanAt(env, t, e1).start.name) == EntryName(SpanAt(env, t, e2).start.name)
    ensures e1 == e2
  {
  }

  /** The only open span that depends on the stored mark `m` is the one at the
      key of `m`'s spans: any span named after `m` and starting when `m` does
      has that span's entry as its own. */
  lemma OpenSpanOfMark(env: Env, t: Tables, e: string, m: Mark, s: Span)
    requires SpanEntryOk(env, t, e) && HoldsMark(env, t.marks, m)
    requires s.name == RemoveSuffix(m).name && s.start.timestamp == m.timestamp
    ensures SpanAt(env, t, e).end.None? && EntryName(SpanAt(env, t, e).start.name) == EntryName(m.name)
      ==> SpanEntry(env.hashing, s) == Success(e)
  {
    var r := SpanAt(env, t, e);
    if r.end.None? && EntryName(r.start.name) == EntryName(m.name) {
      assert r.start == m;
      KeyDependsOnNameAndStartTime(env.hashing, r, s);
    }
  }

  /** Consistent, except perhaps at the entry of span `s`. */
  predicate ConsistentBut(env: Env, t: Tables, s: Span) {
    && (forall e :: e in t.marks ==> MarkEntryOk(env, t.marks, e))
    && (forall e :: e in t.spans && SpanEntry(env.hashing, s) != Success(e) ==> SpanEntryOk(env, t, e))
  }

  /** Deleting a stored mark from a consistent store spoils at most one span
      entry: that of the span the mark starts. */
  lemma DeleteStartMarkSpoilsOnlyItsSpan(env: Env, t: Tables, m: Mark, s: Span)
    requires Consistent(env, t) && HoldsMark(env, t.marks, m)
    requires s.name == RemoveSuffix(m).name && s.start.timestamp == m.timestamp
    ensures ConsistentBut(env, DeleteMark(t, m.name).tables, s)
  {
    var t1 := DeleteMark(t, m.name).tables;
    forall e | e in t1.marks ensures MarkEntryOk(env, t1.marks, e) {
      assert MarkEntryOk(env, t.marks, e);
    }
    forall e | e in t1.spans && SpanEntry(env.hashing, s) != Success(e) ensures SpanEntryOk(env, t1, e) {
      assert SpanEntryOk(env, t, e);
      OpenSpanOfMark(env, t, e, m, s);
      SpanEntryOkFrame(env, t, t1, e);
    }
  }

  /** Rewriting the spoilt entry with a closed span named after its start
      mark makes the store consistent again. */
  lemma UpdateClosedSpanRestores(env: Env, t: Tables, s: Span)
    requires Lossless(env.spanCodec) && ConsistentBut(env, t, s)
    requires s.end.Some? && s.name == RemoveSuffix(s.start).name
    ensures Consistent(env, UpdateSpan(env, t, s).tables)
  {
    var r := UpdateSpan(env, t, s);
    if r.err.None? {
      forall e | e in r.tables.spans ensures SpanEntryOk(env, r.tables, e) {
        if SpanEntry(env.hashing, s) != Success(e) {
          SpanEntryOkFrame(env, t, r.tables, e);
        }
      }
    }
  }

  /** Removing a span from a consistent store, together with its start mark
      when it is open, keeps the store consistent. */
  lemma RemoveStoredSpanKeepsConsistent(env: Env, t: Tables, e0: string)
    requires Consistent(env, t)
    requires e0 in t.spans
    ensures var s := SpanAt(env, t, e0);
      var marks' := if s.end.None? then t.marks - {EntryName(s.start.name)} else t.marks;
      Consistent(env, Tables(marks', t.spans - {e0}))
  {
    assert SpanEntryOk(env, t, e0);
    var s := SpanAt(env, t, e0);
    var marks' := if s.end.None? then t.marks - {EntryName(s.start.name)} else t.marks;
    var t' := Tables(marks', t.spans - {e0});
    forall e | e in t'.marks ensures MarkEntryOk(env, t'.marks, e) {
      assert MarkEntryOk(env, t.marks, e);
    }
    forall e | e in t'.spans ensures SpanEntryOk(env, t', e) {
      assert SpanEntryOk(env, t, e);
      if SpanAt(env, t, e).end.None? && s.end.None? && EntryName(SpanAt(env, t, e).start.name) == EntryName(s.start.name) {
        OpenSpansShareMarkOnlyIfSame(env, t, e, e0);
      }
      SpanEntryOkFrame(env, t, t', e);
    }
  }

  /** In a consistent store, RemoveSpan of a stored span succeeds: it removes
      the span's own entry and, for an open span, its start mark. */
  lemma RemoveStoredSpan(env: Env, t: Tables, e0: string)
    requires Consistent(env, t)
    requires e0 in t.spans
    ensures SpanEntryOk(env, t, e0)
    ensures var s := SpanAt(env, t, e0);
      var marks' := if s.end.None? then t.marks - {EntryName(s.start.name)} else t.marks;
      RemoveSpan(env, t, s) == Step(Tables(marks', t.spans - {e0}), None)
  {
    assert SpanEntryOk(env, t, e0);
  }

  /** The one span a listing matches is stored in one of the listed entries. */
  lemma SingleMatchIsStored(env: Env, t: Tables, name: string, names: seq<string>) returns (e0: string)
    requires IsListing(names, t.spans)
    requires GetAllSpans(env, t, names).Success?
    requires |Matching(GetAllSpans(env, t, names).value, name)| == 1
    ensures e0 in t.spans
    ensures DecodeFromFile(env.spanCodec, t.spans, e0) == Success(Matching(GetAllSpans(env, t, names).value, name)[0])
  {
    var all := GetAllSpans(env, t, names).value;
    ReadAllSucceeds(env.spanCodec, t.spans, names);
    assert Matching(all, name)[0] in all;
    var i :| 0 <= i < |all| && all[i] == Matching(all, name)[0];
    e0 := names[i];
  }

  /** DeleteSpan keeps a consistent store consistent. */
  lemma DeleteSpanKeepsConsistent(env: Env, t: Tables, name: string, names: seq<string>)
    requires Consistent(env, t)
    requires IsListing(names, t.spans)
    ensures Consistent(env, DeleteSpan(env, t, name, names).tables)
  {
    if GetAllSpans(env, t, names).Success? && |Matching(GetAllSpans(env, t, names).value, name)| == 1 {
      var e0 := SingleMatchIsStored(env, t, name, names);
      RemoveStoredSpan(env, t, e0);
      RemoveStoredSpanKeepsConsistent(env, t, e0);
    }
  }
}
