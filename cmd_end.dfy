/** The `end` command (cmd/end.go): close the open span of a name.  Arguments
    are `<name> [description]`. */
module EndCmd {
  import opened Errors
  import opened Marks
  import opened Spans
  import opened Store
  import Db
  import StartCmd

  /** The effect of `end`: look up `<name>-start`, delete the mark found there
      (by the name it carries), then rewrite its span as closed by a fresh
      `<name>-end` mark.  `now` stands for `time.Now()`. */
  function Run(env: Env, t: Tables, args: seq<string>, now: Instant): Step {
    if |args| == 0 then Step(t, Some(NotEnoughArgs))
    else
      var description := if |args| > 1 then args[1] else "";
      var endMark := NewMark(args[0], description, now);
      match GetMark(env, t, AsStart(endMark).name)
      case Failure(e) => Step(t, Some(e))
      case Success(startMark) =>
        var deleted := DeleteMark(t, startMark.name);
        if deleted.err.Some? then deleted
        else UpdateSpan(env, deleted.tables, NewSpan(startMark, Some(AsEnd(endMark))))
  }

  /** `endCmd.Exec` on a store object. */
  method Exec(db: Db.DiskDb, args: seq<string>, now: Instant) returns (err: Option<Error>)
    modifies db
    ensures Step(db.State(), err) == Run(db.env, old(db.State()), args, now)
  {
    if |args| == 0 {
      return Some(NotEnoughArgs);
    }
    var description := if |args| > 1 then args[1] else "";
    var endMark := NewMark(args[0], description, now);
    var startMark := db.GetMark(AsStart(endMark).name);
    if startMark.Failure? {
      return Some(startMark.error);
    }
    endMark := AsEnd(endMark);
    err := db.DeleteMark(startMark.value.name);
    if err.Some? {
      return;
    }
    var span := NewSpan(startMark.value, Some(endMark));
    err := db.UpdateSpan(span);
  }

  /** Without a name nothing changes. */
  lemma EndWithoutArgs(env: Env, t: Tables, now: Instant)
    ensures Run(env, t, [], now) == Step(t, Some(NotEnoughArgs))
  {
  }

  /** Without a stored start mark `end` fails and changes nothing. */
  lemma EndWithoutStartMark(env: Env, t: Tables, args: seq<string>, now: Instant)
    requires |args| > 0 && EntryName(args[0] + StartSuffix) !in t.marks
    ensures Run(env, t, args, now) == Step(t, Some(MarkNotFound(args[0] + StartSuffix)))
  {
    assert AsStart(NewMark(args[0], if |args| > 1 then args[1] else "", now)).name == args[0] + StartSuffix;
  }

  /** The closing span has the key of the open span made from the same start
      mark, so `end` rewrites the entry `start` created. */
  lemma EndTargetsStartKey(h: Hashing, startMark: Mark, args: seq<string>, now: Instant)
    requires |args| > 0
    ensures var endMark := AsEnd(NewMark(args[0], if |args| > 1 then args[1] else "", now));
      NameWithTimestampHash(h, NewSpan(startMark, Some(endMark))) == NameWithTimestampHash(h, NewSpan(startMark, None))
  {
    OpenAndClosedSpanSameKey(h, startMark, AsEnd(NewMark(args[0], if |args| > 1 then args[1] else "", now)));
  }

  /** With the start mark `sm` stored and its open span stored at its key,
      `end` succeeds: the mark is gone and the span's entry now holds the span
      closed by the mark `<name>-end` stamped `now`; no entry is added. */
  lemma EndClosesSpan(env: Env, t: Tables, args: seq<string>, now: Instant, sm: Mark)
    requires Lossless(env.spanCodec)
    requires |args| > 0 && sm.name == args[0] + StartSuffix && HoldsMark(env, t.marks, sm)
    requires SpanEntry(env.hashing, NewSpan(sm, None)).Success?
    requires SpanEntry(env.hashing, NewSpan(sm, None)).value in t.spans
    ensures var e := SpanEntry(env.hashing, NewSpan(sm, None)).value;
      var closed := Span(sm, Some(Mark(now, args[0] + EndSuffix, if |args| > 1 then args[1] else "")), RemoveSuffix(sm).name);
      var r := Run(env, t, args, now);
      && r.err == None
      && r.tables.marks == t.marks - {EntryName(sm.name)}
      && r.tables.spans == t.spans[e := File(env.spanCodec.encode(closed).value)]
      && r.tables.spans.Keys == t.spans.Keys
  {
    var endMark := NewMark(args[0], if |args| > 1 then args[1] else "", now);
    assert AsStart(endMark).name == sm.name;
    EndTargetsStartKey(env.hashing, sm, args, now);
  }

  /** `end` of a start mark whose span is missing deletes the mark anyway and
      then reports that the span does not exist: the two steps are not atomic. */
  lemma EndWithoutSpanLosesMark(env: Env, t: Tables, args: seq<string>, now: Instant, sm: Mark)
    requires |args| > 0 && sm.name == args[0] + StartSuffix && HoldsMark(env, t.marks, sm)
    requires SpanEntry(env.hashing, NewSpan(sm, None)).Success?
    requires SpanEntry(env.hashing, NewSpan(sm, None)).value !in t.spans
    ensures Run(env, t, args, now) ==
      Step(t.(marks := t.marks - {EntryName(sm.name)}), Some(SpanNotFound(RemoveSuffix(sm).name)))
  {
    var endMark := NewMark(args[0], if |args| > 1 then args[1] else "", now);
    assert AsStart(endMark).name == sm.name;
    EndTargetsStartKey(env.hashing, sm, args, now);
  }

  /** `end` keeps the store consistent: the only span that depended on the
      deleted mark is the one it closes. */
  lemma EndKeepsConsistent(env: Env, t: Tables, args: seq<string>, now: Instant)
    requires Lossless(env.spanCodec)
    requires Consistent(env, t)
    ensures Consistent(env, Run(env, t, args, now).tables)
  {
    if |args| > 0 {
      var endMark := NewMark(args[0], if |args| > 1 then args[1] else "", now);
      var got := GetMark(env, t, AsStart(endMark).name);
      if got.Success? {
        var sm := got.value;
        assert MarkEntryOk(env, t.marks, EntryName(AsStart(endMark).name));
        var closed := NewSpan(sm, Some(AsEnd(endMark)));
        DeleteStartMarkSpoilsOnlyItsSpan(env, t, sm, closed);
        UpdateClosedSpanRestores(env, DeleteMark(t, sm.name).tables, closed);
      }
    }
  }

  /** `start` then `end` when the mark file reads back with a timestamp whose
      binary form, and so the span's key, differs from the one `start` used
      (in Go, a local time at offset 0 is written out as `Z` and read back as
      UTC).  Both steps of `start` succeed, but `end` looks for the span under
      the other key: it deletes the start mark and reports the span missing,
      and the open span stays stored without its start mark. */
  lemma StartThenEndAfterZoneShift(env: Env, t: Tables, name: string, startDescription: string,
                                   endDescription: string, parseDate: string -> Result<Instant>,
                                   started: Instant, readBack: Instant, ended: Instant)
    requires var sm := Mark(started, name + StartSuffix, startDescription);
      && EntryName(sm.name) !in t.marks
      && env.markCodec.encode(sm).Success?
      && env.markCodec.decode(env.markCodec.encode(sm).value) == Success(sm.(timestamp := readBack))
      && env.spanCodec.encode(Span(sm, None, name)).Success?
    requires SpanEntry(env.hashing, Span(Mark(started, name + StartSuffix, startDescription), None, name)).Success?
    requires SpanEntry(env.hashing, Span(Mark(started, name + StartSuffix, startDescription), None, name)).value !in t.spans
    requires SpanEntry(env.hashing, Span(Mark(readBack, name + StartSuffix, startDescription), None, name)).Success?
    requires SpanEntry(env.hashing, Span(Mark(readBack, name + StartSuffix, startDescription), None, name)).value
             != SpanEntry(env.hashing, Span(Mark(started, name + StartSuffix, startDescription), None, name)).value
    requires SpanEntry(env.hashing, Span(Mark(readBack, name + StartSuffix, startDescription), None, name)).value !in t.spans
    ensures var sm := Mark(started, name + StartSuffix, startDescription);
      var t1 := StartCmd.Run(env, t, [name, startDescription], "", parseDate, started);
      var r := Run(env, t1.tables, [name, endDescription], ended);
      && t1.err == None
      && r.err == Some(SpanNotFound(name))
      && r.tables.marks == t.marks
      && EntryName(sm.name) !in r.tables.marks
      && r.tables.spans == t1.tables.spans
      && SpanEntry(env.hashing, Span(sm, None, name)).value in r.tables.spans
  {
    var sm := Mark(started, name + StartSuffix, startDescription);
    var sm' := sm.(timestamp := readBack);
    NewSpanOfStartMark(Mark(started, name, startDescription), None);
    assert NewSpan(sm, None) == Span(sm, None, name);
    var t1 := StartCmd.Run(env, t, [name, startDescription], "", parseDate, started).tables;
    assert GetMark(env, t1, sm.name) == Success(sm');
    var endMark := NewMark(name, endDescription, ended);
    assert AsStart(endMark).name == sm.name;
    var closed := NewSpan(sm', Some(AsEnd(endMark)));
    KeyDependsOnNameAndStartTime(env.hashing, closed, Span(sm', None, name));
  }

  /** `start` then `end` of a fresh name, on a store where neither the start
      mark nor the span's entry is taken, leaves the marks as they were and
      adds exactly one entry: the closed span, named after the name, from the
      start mark to the end mark. */
  lemma StartThenEnd(env: Env, t: Tables, name: string, startDescription: string, endDescription: string,
                     parseDate: string -> Result<Instant>, started: Instant, ended: Instant)
    requires Lossless(env.markCodec) && Lossless(env.spanCodec)
    requires EntryName(name + StartSuffix) !in t.marks
    requires SpanEntry(env.hashing, Span(Mark(started, name + StartSuffix, startDescription), None, name)).Success?
    requires SpanEntry(env.hashing, Span(Mark(started, name + StartSuffix, startDescription), None, name)).value !in t.spans
    ensures var sm := Mark(started, name + StartSuffix, startDescription);
      var e := SpanEntry(env.hashing, Span(sm, None, name)).value;
      var t1 := StartCmd.Run(env, t, [name, startDescription], "", parseDate, started);
      var r := Run(env, t1.tables, [name, endDescription], ended);
      && t1.err == None && r.err == None
      && r.tables.marks == t.marks
      && r.tables.spans.Keys == t.spans.Keys + {e}
      && env.spanCodec.decode(r.tables.spans[e].data)
         == Success(Span(sm, Some(Mark(ended, name + EndSuffix, endDescription)), name))
  {
    var sm := Mark(started, name + StartSuffix, startDescription);
    StartCmd.StartStoresOpenSpan(env, t, [name, startDescription], "", parseDate, started);
    var t1 := StartCmd.Run(env, t, [name, startDescription], "", parseDate, started).tables;
    NewSpanOfStartMark(Mark(started, name, startDescription), None);
    assert NewSpan(sm, None) == Span(sm, None, name);
    EndClosesSpan(env, t1, [name, endDescription], ended, sm);
  }
}
