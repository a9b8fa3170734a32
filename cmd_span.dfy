/** The `span` command (cmd/span.go): `span [list]`, `span remove <name>` and
    `span add <name> <start> <end>`. */
module SpanCmd {
  import opened Errors
  import opened Marks
  import opened Spans
  import opened Store
  import Db

  const RemoveNeedsName: Error := NotEnoughArguments("not enough arguments for subcommand 'remove' of 'span'")
  const AddNeedsThree: Error := NotEnoughArguments("not enough arguments for subcommand 'add' of 'span'")

  /** The tables afterwards, the error returned, and the spans printed (one
      line each, in listing order). */
  datatype Outcome = Outcome(tables: Tables, err: Option<Error>, listed: seq<Span>)

  /** `listSpans`: nothing is printed when the listing fails. */
  function List(env: Env, t: Tables, names: seq<string>): Outcome {
    match GetAllSpans(env, t, names)
    case Failure(e) => Outcome(t, Some(e), [])
    case Success(all) => Outcome(t, None, all)
  }

  /** The effect of `span`.  `names` is what `ReadDir` returns for the spans
      directory and `parseDate` stands for
      `time.ParseInLocation(time.DateTime, _, time.Local)`.  An unknown
      subcommand does nothing and reports no error. */
  function Run(env: Env, t: Tables, args: seq<string>, names: seq<string>,
               parseDate: string -> Result<Instant>): Outcome
  {
    if |args| == 0 || args[0] == "list" then List(env, t, names)
    else if args[0] == "remove" then
      if |args| < 2 then Outcome(t, Some(RemoveNeedsName), [])
      else
        var r := DeleteSpan(env, t, args[1], names);
        Outcome(r.tables, r.err, [])
    else if args[0] == "add" then
      if |args| < 4 then Outcome(t, Some(AddNeedsThree), [])
      else match parseDate(args[2])
        case Failure(e) => Outcome(t, Some(e), [])
        case Success(startTime) =>
          match parseDate(args[3])
          case Failure(e) => Outcome(t, Some(e), [])
          case Success(endTime) =>
            var span := NewSpan(NewMark(args[1], "", startTime), Some(NewMark(args[1], "", endTime)));
            var r := CreateSpan(env, t, span);
            Outcome(r.tables, r.err, [])
    else Outcome(t, None, [])
  }

  /** `spanCommand.listSpans` on a store object. */
  method ListSpans(db: Db.DiskDb, names: seq<string>) returns (err: Option<Error>, listed: seq<Span>)
    requires IsListing(names, db.spans)
    ensures Outcome(db.State(), err, listed) == List(db.env, db.State(), names)
  {
    var spans := db.GetAllSpans(names);
    if spans.Failure? {
      return Some(spans.error), [];
    }
    err, listed := None, [];
    for i := 0 to |spans.value|
      invariant listed == spans.value[..i]
    {
      listed := listed + [spans.value[i]];
    }
    assert listed == spans.value[..|spans.value|] == spans.value;
  }

  /** `spanCommand.Exec` on a store object. */
  method Exec(db: Db.DiskDb, args: seq<string>, names: seq<string>,
              parseDate: string -> Result<Instant>) returns (err: Option<Error>, listed: seq<Span>)
    requires IsListing(names, db.spans)
    modifies db
    ensures Outcome(db.State(), err, listed) == Run(db.env, old(db.State()), args, names, parseDate)
  {
    listed := [];
    if |args| == 0 || args[0] == "list" {
      err, listed := ListSpans(db, names);
    } else if args[0] == "remove" {
      var rest := args[1..];
      if |rest| == 0 {
        return Some(RemoveNeedsName), [];
      }
      err := db.DeleteSpan(rest[0], names);
    } else if args[0] == "add" {
      var rest := args[1..];
      if |rest| < 3 {
        return Some(AddNeedsThree), [];
      }
      var startTime := parseDate(rest[1]);
      if startTime.Failure? {
        return Some(startTime.error), [];
      }
      var start := NewMark(rest[0], "", startTime.value);
      var endTime := parseDate(rest[2]);
      if endTime.Failure? {
        return Some(endTime.error), [];
      }
      var end := NewMark(rest[0], "", endTime.value);
      var span := NewSpan(start, Some(end));
      err := db.CreateSpan(span);
    } else {
      err := None;
    }
  }

  /** Listing never changes the store.  It succeeds exactly when every entry
      decodes, and then prints one span per entry in listing order; otherwise
      it prints nothing and reports the error of the first entry that fails. */
  lemma ListShowsEverySpan(env: Env, t: Tables, args: seq<string>, names: seq<string>,
                           parseDate: string -> Result<Instant>)
    requires |args| == 0 || args[0] == "list"
    ensures var o := Run(env, t, args, names, parseDate);
      && o.tables == t
      && (o.err.None? <==> forall i :: 0 <= i < |names| ==> DecodeFromFile(env.spanCodec, t.spans, names[i]).Success?)
      && (o.err.None? ==>
            && |o.listed| == |names|
            && forall i :: 0 <= i < |names| ==> DecodeFromFile(env.spanCodec, t.spans, names[i]) == Success(o.listed[i]))
      && (o.err.Some? ==>
            && o.listed == []
            && exists k :: (0 <= k < |names| && DecodeFromFile(env.spanCodec, t.spans, names[k]) == Failure(o.err.value)
                            && forall j :: 0 <= j < k ==> DecodeFromFile(env.spanCodec, t.spans, names[j]).Success?))
  {
    ReadAllSucceeds(env.spanCodec, t.spans, names);
    if GetAllSpans(env, t, names).Failure? {
      ReadAllFirstError(env.spanCodec, t.spans, names);
    }
  }

  /** `span remove` without a name fails and changes nothing. */
  lemma RemoveWithoutName(env: Env, t: Tables, names: seq<string>, parseDate: string -> Result<Instant>)
    ensures Run(env, t, ["remove"], names, parseDate) == Outcome(t, Some(RemoveNeedsName), [])
  {
  }

  /** `span remove <name>` is one DeleteSpan of that name and prints no span. */
  lemma RemoveIsDeleteSpan(env: Env, t: Tables, args: seq<string>, names: seq<string>,
                           parseDate: string -> Result<Instant>)
    requires |args| >= 2 && args[0] == "remove"
    ensures var r := DeleteSpan(env, t, args[1], names);
      Run(env, t, args, names, parseDate) == Outcome(r.tables, r.err, [])
  {
  }

  /** `span add` with fewer than three operands, or with a date that does not
      parse, fails and changes nothing, with the argument error or the error
      of the first date that does not parse. */
  lemma AddFailsEarly(env: Env, t: Tables, args: seq<string>, names: seq<string>,
                      parseDate: string -> Result<Instant>)
    requires |args| > 0 && args[0] == "add"
    requires |args| < 4 || parseDate(args[2]).Failure? || parseDate(args[3]).Failure?
    ensures var o := Run(env, t, args, names, parseDate);
      && o.tables == t && o.listed == []
      && (|args| < 4 ==> o.err == Some(AddNeedsThree))
      && (|args| >= 4 && parseDate(args[2]).Failure? ==> o.err == Some(parseDate(args[2]).error))
      && (|args| >= 4 && parseDate(args[2]).Success? && parseDate(args[3]).Failure? ==>
            o.err == Some(parseDate(args[3]).error))
  {
  }

  /** `span add <name> <start> <end>` stores the closed span from an
      undescribed mark `<name>` at the start date to one at the end date,
      named `<name>` with any `-start` or `-end` cut.  No mark is stored, and
      the end date is not required to follow the start date. */
  lemma AddCreatesClosedSpan(env: Env, t: Tables, args: seq<string>, names: seq<string>,
                             parseDate: string -> Result<Instant>)
    requires |args| >= 4 && args[0] == "add"
    requires parseDate(args[2]).Success? && parseDate(args[3]).Success?
    ensures var start := Mark(parseDate(args[2]).value, args[1], "");
      var s := Span(start, Some(Mark(parseDate(args[3]).value, args[1], "")), RemoveSuffix(start).name);
      var r := CreateSpan(env, t, s);
      var o := Run(env, t, args, names, parseDate);
      && o == Outcome(r.tables, r.err, [])
      && o.tables.marks == t.marks
  {
  }

  /** Any other subcommand does nothing and reports no error. */
  lemma UnknownSubcommand(env: Env, t: Tables, args: seq<string>, names: seq<string>,
                          parseDate: string -> Result<Instant>)
    requires |args| > 0 && args[0] != "list" && args[0] != "remove" && args[0] != "add"
    ensures Run(env, t, args, names, parseDate) == Outcome(t, None, [])
  {
  }

  /** `span` keeps the store consistent. */
  lemma SpanKeepsConsistent(env: Env, t: Tables, args: seq<string>, names: seq<string>,
                            parseDate: string -> Result<Instant>)
    requires Lossless(env.spanCodec)
    requires Consistent(env, t)
    requires IsListing(names, t.spans)
    ensures Consistent(env, Run(env, t, args, names, parseDate).tables)
  {
    if |args| >= 2 && args[0] == "remove" {
      DeleteSpanKeepsConsistent(env, t, args[1], names);
    } else if |args| >= 4 && args[0] == "add" && parseDate(args[2]).Success? && parseDate(args[3]).Success? {
      var start := NewMark(args[1], "", parseDate(args[2]).value);
      CreateSpanKeepsConsistent(env, t, NewSpan(start, Some(NewMark(args[1], "", parseDate(args[3]).value))));
    }
  }
}
