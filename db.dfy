/** `DiskDb` (db/db.go): the store object.  Its two directories are fields
    that the methods update step by step as the Go code does; each method is
    proved to have the effect of the matching function of `Store`. */
module Db {
  import opened Errors
  import opened Marks
  import opened Spans
  import Store

  class DiskDb {
    /** The configuration: codecs, MarshalBinary and SHA-256. */
    const env: Store.Env
    /** The `marks` sub-directory. */
    var marks: Store.Dir
    /** The `spans` sub-directory. */
    var spans: Store.Dir

    function State(): Store.Tables
      reads this
    {
      Store.Tables(marks, spans)
    }

    /** `NewDiskDb` followed by a successful `Setup`: both directories exist,
        holding whatever they already held. */
    constructor (env: Store.Env, existing: Store.Tables)
      ensures this.env == env && State() == existing
    {
      this.env := env;
      marks := existing.marks;
      spans := existing.spans;
    }

    /** `createMarkEntry`: create an empty file, failing if the entry exists. */
    method CreateMarkEntry(name: string) returns (err: Option<Error>)
      modifies this
      ensures Store.Step(State(), err) == Store.CreateMarkEntry(old(State()), name)
    {
      var e := Store.EntryName(name);
      if Store.FileExists(marks, e) {
        return Some(EntryExists(e));
      }
      marks := marks[e := Store.File([])];
      return None;
    }

    method CreateMark(m: Mark) returns (err: Option<Error>)
      modifies this
      ensures Store.Step(State(), err) == Store.CreateMark(env, old(State()), m)
    {
      err := CreateMarkEntry(m.name);
      if err.Some? {
        return;
      }
      var encoded := env.markCodec.encode(m);
      if encoded.Failure? {
        return Some(encoded.error);
      }
      marks := marks[Store.EntryName(m.name) := Store.File(encoded.value)];
    }

    method DeleteMark(name: string) returns (err: Option<Error>)
      modifies this
      ensures Store.Step(State(), err) == Store.DeleteMark(old(State()), name)
    {
      var e := Store.EntryName(name);
      if !Store.FileExists(marks, e) {
        return Some(MarkNotFound(name));
      }
      marks := marks - {e};
      return None;
    }

    method GetMark(name: string) returns (r: Result<Mark>)
      ensures r == Store.GetMark(env, State(), name)
    {
      var e := Store.EntryName(name);
      if !Store.FileExists(marks, e) {
        return Failure(MarkNotFound(name));
      }
      r := Store.DecodeFromFile(env.markCodec, marks, e);
    }

    /** `GetAllMarks` through `decodeAllInDir`; `names` is what `ReadDir`
        returned for the marks directory. */
    method GetAllMarks(names: seq<string>) returns (items: seq<Option<Mark>>, err: Option<Error>)
      requires Store.IsListing(names, marks)
      ensures Store.Listing(items, err) == Store.GetAllMarks(env, State(), names)
    {
      items, err := [], None;
      var i := 0;
      while i < |names|
        invariant 0 <= i <= |names|
        invariant Store.Listing(items, err) == Store.DecodeAllInDir(env.markCodec, marks, names[..i])
      {
        var e := names[i];
        assert names[..i + 1][..i] == names[..i];
        if marks[e].Directory? {
          i := i + 1;
          continue;
        }
        var t := Store.DecodeFromFile(env.markCodec, marks, e);
        match t {
          case Success(x) =>
            items, err := items + [Some(x)], None;
          case Failure(er) =>
            items, err := items + [None], Some(er);
        }
        i := i + 1;
      }
      assert names[..i] == names;
    }

    method CreateSpan(s: Span) returns (err: Option<Error>)
      modifies this
      ensures Store.Step(State(), err) == Store.CreateSpan(env, old(State()), s)
    {
      var key := NameWithTimestampHash(env.hashing, s);
      if key.Failure? {
        return Some(key.error);
      }
      var e := Store.EntryName(key.value);
      if Store.FileExists(spans, e) {
        return Some(SpanExists(s.name));
      }
      var data := env.spanCodec.encode(s);
      if data.Failure? {
        return Some(data.error);
      }
      spans := spans[e := Store.File(data.value)];
      return None;
    }

    /** `DeleteSpan`; `names` is what `ReadDir` returned for the spans
        directory. */
    method DeleteSpan(name: string, names: seq<string>) returns (err: Option<Error>)
      requires Store.IsListing(names, spans)
      modifies this
      ensures Store.Step(State(), err) == Store.DeleteSpan(env, old(State()), name, names)
    {
      var all := GetAllSpans(names);
      if all.Failure? {
        return Some(all.error);
      }
      var matching := Store.Matching(all.value, name);
      if |matching| > 1 {
        return Some(TooManySpans(|matching|, name));
      }
      if |matching| == 0 {
        // `spans[0]` on an empty slice, or on the nil left by DeleteFunc
        return Some(IndexOutOfRange);
      }
      var span := matching[0];
      if span.end.None? {
        err := DeleteMark(span.start.name);
        if err.Some? {
          return;
        }
      }
      var key := NameWithTimestampHash(env.hashing, span);
      if key.Failure? {
        return Some(key.error);
      }
      var e := Store.EntryName(key.value);
      if e !in spans {
        return Some(NoSuchEntry(e));
      }
      spans := spans - {e};
      return None;
    }

    method UpdateSpan(s: Span) returns (err: Option<Error>)
      modifies this
      ensures Store.Step(State(), err) == Store.UpdateSpan(env, old(State()), s)
    {
      var key := NameWithTimestampHash(env.hashing, s);
      if key.Failure? {
        return Some(key.error);
      }
      var e := Store.EntryName(key.value);
      if !Store.FileExists(spans, e) {
        return Some(SpanNotFound(s.name));
      }
      var data := env.spanCodec.encode(s);
      if data.Failure? {
        return Some(data.error);
      }
      spans := spans[e := Store.File(data.value)];
      return None;
    }

    method GetSpan(key: string) returns (r: Result<Span>)
      ensures r == Store.GetSpan(env, State(), key)
    {
      r := Store.DecodeFromFile(env.spanCodec, spans, Store.EntryName(key));
    }

    /** `GetAllSpans`; `names` is what `ReadDir` returned for the spans
        directory.  Go also returns the spans read before an error; every
        caller discards them, and the model returns only the error. */
    method GetAllSpans(names: seq<string>) returns (r: Result<seq<Span>>)
      requires Store.IsListing(names, spans)
      ensures r == Store.GetAllSpans(env, State(), names)
    {
      var acc: seq<Span> := [];
      var i := 0;
      while i < |names|
        invariant 0 <= i <= |names|
        invariant Store.ReadAll(env.spanCodec, spans, names[..i]) == Success(acc)
      {
        var span := Store.DecodeFromFile(env.spanCodec, spans, names[i]);
        assert names[..i + 1][..i] == names[..i];
        if span.Failure? {
          Store.ReadAllPrefixFails(env.spanCodec, spans, names, i + 1);
          return Failure(span.error);
        }
        acc := acc + [span.value];
        i := i + 1;
      }
      assert names[..i] == names;
      return Success(acc);
    }
  }
}
