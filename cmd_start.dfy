/** The `start` command (cmd/start.go): store a start mark and the open span
    it begins.  Arguments are `<name> [description]`, with an optional
    `-date` flag in the `time.DateTime` layout. */
module StartCmd {
  import opened Errors
  import opened Marks
  import opened Spans
  import opened Store
  import Db

  /** The effect of `start`.  `date` is the `-date` flag ("" when absent),
      `parseDate` stands for `time.ParseInLocation(time.DateTime, _, time.Local)`
      and `now` for `time.Now()`. */
  function Run(env: Env, t: Tables, args: seq<string>, date: string,
               parseDate: string -> Result<Instant>, now: Instant): Step
  {
    if |args| == 0 then Step(t, Some(NotEnoughArgs))
    else
      var description := if |args| > 1 then args[1] else "";
      var mark := NewMark(args[0], description, now);
      if date != "" && parseDate(date).Failure? then Step(t, Some(parseDate(date).error))
      else
        var stamped := if date == "" then mark else mark.(timestamp := parseDate(date).value);
        var m := AsStart(stamped);
        var created := CreateMark(env, t, m);
        if created.err.Some? then created
        else CreateSpan(env, created.tables, NewSpan(m, None))
  }

  /** `startCmd.Exec` on a store object. */
  method Exec(db: Db.DiskDb, args: seq<string>, date: string,
              parseDate: string -> Result<Instant>, now: Instant) returns (err: Option<Error>)
    modifies db
    ensures Step(db.State(), err) == Run(db.env, old(db.State()), args, date, parseDate, now)
  {
    if |args| == 0 {
      return Some(NotEnoughArgs);
    }
    var description := if |args| > 1 then args[1] else "";
    var mark := NewMark(args[0], description, now);
    if date != "" {
      var ts := parseDate(date);
      if ts.Failure? {
        return Some(ts.error);
      }
      mark := mark.(timestamp := ts.value);
    }
    mark := AsStart(mark);
    err := db.CreateMark(mark);
    if err.Some? {
      return;
    }
    var span := NewSpan(mark, None);
    err := db.CreateSpan(span);
  }

  /** Without a name nothing is stored. */
  lemma StartWithoutArgs(env: Env, t: Tables, date: string, parseDate: string -> Result<Instant>, now: Instant)
    ensures Run(env, t, [], date, parseDate, now) == Step(t, Some(NotEnoughArgs))
  {
  }

  /** A `-date` that does not parse is reported before anything is stored. */
  lemma StartWithBadDate(env: Env, t: Tables, args: seq<string>, date: string,
                          parseDate: string -> Result<Instant>, now: Instant)
    requires |args| > 0 && date != "" && parseDate(date).Failure?
    ensures Run(env, t, args, date, parseDate, now) == Step(t, Some(parseDate(date).error))
  {
  }

  /** `start` of a name whose start mark is stored (a span of that name still
      open) fails and changes nothing. */
  lemma StartWhileOpen(env: Env, t: Tables, args: seq<string>, date: string,
                       parseDate: string -> Result<Instant>, now: Instant)
    requires |args| > 0 && (date != "" ==> parseDate(date).Success?)
    requires EntryName(args[0] + StartSuffix) in t.marks
    ensures Run(env, t, args, date, parseDate, now) == Step(t, Some(EntryExists(EntryName(args[0] + StartSuffix))))
  {
  }

  /** What `start` stores: the mark `<name>-start`, stamped with the parsed
      date or the current time, and the open span `<name>` it begins, under
      that span's key; no other mark changes.  It succeeds exactly when
      neither entry is taken and the key can be computed.  When only the span
      fails, the mark stays stored without a span. */
  lemma StartStoresOpenSpan(env: Env, t: Tables, args: seq<string>, date: string,
                            parseDate: string -> Result<Instant>, now: Instant)
    requires Lossless(env.markCodec) && Lossless(env.spanCodec)
    requires |args| > 0 && (date != "" ==> parseDate(date).Success?)
    ensures var m := Mark(if date == "" then now else parseDate(date).value,
                          args[0] + StartSuffix, if |args| > 1 then args[1] else "");
      var s := Span(m, None, args[0]);
      var r := Run(env, t, args, date, parseDate, now);
      && (r.err.None? <==>
            EntryName(m.name) !in t.marks
            && SpanEntry(env.hashing, s).Success? && SpanEntry(env.hashing, s).value !in t.spans)
      && (r.err.None? ==>
            && HoldsMark(env, r.tables.marks, m)
            && r.tables.marks.Keys == t.marks.Keys + {EntryName(m.name)}
            && (forall e :: e in t.marks ==> r.tables.marks[e] == t.marks[e])
            && r.tables.spans == t.spans[SpanEntry(env.hashing, s).value := File(env.spanCodec.encode(s).value)])
      && (r.err.Some? && EntryName(m.name) !in t.marks ==>
            && HoldsMark(env, r.tables.marks, m)
            && r.tables.marks.Keys == t.marks.Keys + {EntryName(m.name)}
            && (forall e :: e in t.marks ==> r.tables.marks[e] == t.marks[e])
            && r.tables.spans == t.spans)
  {
    var stamped := NewMark(args[0], if |args| > 1 then args[1] else "", now);
    if date != "" {
      stamped := stamped.(timestamp := parseDate(date).value);
    }
    NewSpanOfStartMark(stamped, None);
  }

  /** `start` keeps the store consistent. */
  lemma StartKeepsConsistent(env: Env, t: Tables, args: seq<string>, date: string,
                             parseDate: string -> Result<Instant>, now: Instant)
    requires Lossless(env.markCodec) && Lossless(env.spanCodec)
    requires Consistent(env, t)
    ensures Consistent(env, Run(env, t, args, date, parseDate, now).tables)
  {
    if |args| > 0 && !(date != "" && parseDate(date).Failure?) {
      var stamped := NewMark(args[0], if |args| > 1 then args[1] else "", now);
      if date != "" {
        stamped := stamped.(timestamp := parseDate(date).value);
      }
      var m := AsStart(stamped);
      CreateMarkKeepsConsistent(env, t, m);
      if CreateMark(env, t, m).err.None? {
        CreateSpanKeepsConsistent(env, CreateMark(env, t, m).tables, NewSpan(m, None));
      }
    }
  }
}
