/**
 The plugin's state and event handling: the `errorMarks` table from file URI
 to the editor mark shown for that file, the `.py` filter on the `save` and
 `open` events, `lintFile` with its `clearMarks` and the insertion
 `displayError` makes, and `destroy`.

 The host is abstracted: reading the file and running the compiler come to
 one `CheckOutcome`; `markText` hands out fresh handles, modelled by the
 counter `nextId`; and `live` is the set of handles the editor still shows,
 that is, those not yet `clear()`ed.
 */
module Linter {
  import opened Options
  import opened Text
  import opened Diagnostics
  import opened Suggestions

  type Uri = string

  /** A mark handle `markText` returned. */
  type MarkId = nat

  /** An editor position: zero-based line and column. The line is an `int`:
      a reported line 0 (see `Diagnostics.LineZeroIsReported`) gives line -1,
      which nothing rules out. */
  datatype Pos = Pos(line: int, ch: nat)

  /** A mark the editor shows: its handle, its range and its tooltip. */
  datatype Mark = Mark(id: MarkId, from: Pos, to: Pos, title: string)

  /** The plugin: `errorMarks`, the handles not yet cleared, and the handle
      the next `markText` call returns. */
  datatype Plugin = Plugin(marks: map<Uri, Mark>, live: set<MarkId>, nextId: MarkId)

  /** How reading the file and running `python3 -m py_compile -` ended:
      a thrown error, or the captured standard error text. */
  datatype CheckOutcome = Failed | Finished(stderr: string)

  /** The content of the advisory popup. */
  datatype Popup = Popup(line: nat, message: string, suggestion: string)

  /** What handling one event shows to the outside. */
  datatype Effect =
    | Ignored          // the event was filtered out: nothing read, nothing run
    | Escaped          // a TypeError escaped the handler before the filter
    | Logged           // reading or checking failed; the error went to the console
    | Quiet            // the check ran but no mark was made
    | Alerted(popup: Popup)

  /** An editor event; the file may be missing. */
  datatype Event = Save(file: Option<Uri>) | Open(file: Option<Uri>)

  /** The file suffix the plugin checks (case-sensitive). */
  const PythonSuffix: string := ".py"

  /** The end column of every mark: the line is marked up to column 999. */
  const EndColumn: nat := 999

  /** The handles of the marks the table holds. */
  function MarkIds(marks: map<Uri, Mark>): set<MarkId> {
    set u | u in marks :: marks[u].id
  }

  /** The table and the editor agree: the handles shown are exactly the
      handles in the table, each file's handle is its own, and every handle
      was already handed out. */
  predicate Valid(p: Plugin) {
    && p.live == MarkIds(p.marks)
    && (forall u :: u in p.marks ==> p.marks[u].id < p.nextId)
    && (forall u, v :: u in p.marks && v in p.marks && u != v ==> p.marks[u].id != p.marks[v].id)
  }

  /** `init`: an empty table, nothing shown. */
  function Init(): (p: Plugin)
    ensures Valid(p)
    ensures p.marks == map[] && p.live == {}
  {
    Plugin(map[], {}, 0)
  }

  /** The test both handlers apply to `file.uri`. */
  predicate IsPython(uri: Uri) {
    EndsWith(uri, PythonSuffix)
  }

  /** `clearMarks(file)`: the file's mark, if any, is cleared and removed;
      no other entry and no other shown mark changes. */
  function ClearMarks(p: Plugin, uri: Uri): (r: Plugin)
    ensures uri !in r.marks
    ensures forall u :: u != uri ==> (u in r.marks <==> u in p.marks)
    ensures forall u :: u in r.marks ==> r.marks[u] == p.marks[u]
    ensures uri in p.marks ==> r.live == p.live - {p.marks[uri].id}
    ensures uri !in p.marks ==> r.live == p.live
    ensures r.nextId == p.nextId
    ensures Valid(p) ==> Valid(r)
  {
    if uri in p.marks then
      var id := p.marks[uri].id;
      var r := Plugin(p.marks - {uri}, p.live - {id}, p.nextId);
      assert Valid(p) ==> Valid(r) by {
        if Valid(p) {
          RemoveMarkKeepsValid(p, uri);
        }
      }
      r
    else p
  }

  /** Removing a file's entry and clearing its mark keeps the table and
      the editor in agreement. */
  lemma RemoveMarkKeepsValid(p: Plugin, uri: Uri)
    requires Valid(p) && uri in p.marks
    ensures Valid(Plugin(p.marks - {uri}, p.live - {p.marks[uri].id}, p.nextId))
  {
    var m := p.marks - {uri};
    var id := p.marks[uri].id;
    assert MarkIds(m) == MarkIds(p.marks) - {id} by {
      forall x | x in MarkIds(m)
        ensures x in MarkIds(p.marks) - {id}
      {
        var u :| u in m && m[u].id == x;
        assert u in p.marks && u != uri;
      }
      forall x | x in MarkIds(p.marks) - {id}
        ensures x in MarkIds(m)
      {
        var u :| u in p.marks && p.marks[u].id == x;
        assert u != uri;
        assert u in m;
      }
    }
  }

  /** `displayError(stderr, file)`: if the text parses, the file gets a new
      mark on zero-based line `line - 1`, columns 0 to 999, with the message
      as its tooltip, and the popup shows line, message and hint. */
  function DisplayError(p: Plugin, stderr: string, uri: Uri): (Plugin, Effect)
  {
    match ParseError(stderr)
    case None => (p, Quiet)
    case Some(d) =>
      var line := d.line - 1;
      var mark := Mark(p.nextId, Pos(line, 0), Pos(line, EndColumn), d.message);
      (Plugin(p.marks[uri := mark], p.live + {p.nextId}, p.nextId + 1),
       Alerted(Popup(d.line, d.message, SuggestFix(d.message))))
  }

  /** `lintFile(file)`. A failure of the read or the check is caught before
      `clearMarks`, so everything stays as it was, a stale mark included.
      Otherwise the file ends up with a mark exactly when the error text is
      non-empty and parses, and a popup is shown exactly then. */
  function LintFile(p: Plugin, uri: Uri, outcome: CheckOutcome): (r: (Plugin, Effect))
    ensures outcome.Failed? ==> r == (p, Logged)
    ensures outcome.Finished? ==>
      && (uri in r.0.marks <==> outcome.stderr != [] && ParseError(outcome.stderr).Some?)
      && (r.1.Alerted? <==> uri in r.0.marks)
  {
    match outcome
    case Failed => (p, Logged)
    case Finished(stderr) =>
      var q := ClearMarks(p, uri);
      if stderr == [] then (q, Quiet) else DisplayError(q, stderr, uri)
  }

  /** Linting a file leaves the entries of every other file as they were. */
  lemma LintFileKeepsOtherFiles(p: Plugin, uri: Uri, outcome: CheckOutcome)
    ensures var r := LintFile(p, uri, outcome).0;
      && (forall u :: u != uri ==> (u in r.marks <==> u in p.marks))
      && (forall u :: u != uri && u in p.marks ==> r.marks[u] == p.marks[u])
  {
  }

  /** From an agreeing state, the mark a successful check installs spans
      zero-based line `line - 1` from column 0 to column 999, carries the
      message as its tooltip and a fresh handle (one no shown mark uses);
      the popup shows the line, the message and its hint. */
  lemma LintFileNewMark(p: Plugin, uri: Uri, outcome: CheckOutcome)
    requires Valid(p)
    requires outcome.Finished?
    requires uri in LintFile(p, uri, outcome).0.marks
    ensures p.nextId !in p.live
    ensures var r := LintFile(p, uri, outcome);
      var d := ParseError(outcome.stderr).value;
      && r.0.marks[uri] == Mark(p.nextId, Pos(d.line - 1, 0), Pos(d.line - 1, EndColumn), d.message)
      && r.0.nextId == p.nextId + 1
      && r.1 == Alerted(Popup(d.line, d.message, SuggestFix(d.message)))
  {
  }

  /** A finished check first clears the file's old mark, then shows at most
      the new one: nothing else the editor shows changes. */
  lemma LintFileClearsOldMark(p: Plugin, uri: Uri, outcome: CheckOutcome)
    requires outcome.Finished?
    ensures var r := LintFile(p, uri, outcome).0;
      var cleared := if uri in p.marks then {p.marks[uri].id} else {};
      var added := if uri in r.marks then {p.nextId} else {};
      r.live == p.live - cleared + added
  {
  }

  /** Linting a file keeps the table and the editor in agreement. */
  lemma LintFileKeepsValid(p: Plugin, uri: Uri, outcome: CheckOutcome)
    requires Valid(p)
    ensures Valid(LintFile(p, uri, outcome).0)
  {
    if outcome.Finished? && outcome.stderr != [] && ParseError(outcome.stderr).Some? {
      var q := ClearMarks(p, uri);
      var r := LintFile(p, uri, outcome).0;
      AddFreshMarkKeepsValid(q, uri, r.marks[uri]);
      assert r == Plugin(q.marks[uri := r.marks[uri]], q.live + {q.nextId}, q.nextId + 1);
    }
  }

  /** Adding a mark with the next fresh handle for a file that has none
      keeps the table and the editor in agreement. */
  lemma AddFreshMarkKeepsValid(p: Plugin, uri: Uri, mark: Mark)
    requires Valid(p) && uri !in p.marks && mark.id == p.nextId
    ensures Valid(Plugin(p.marks[uri := mark], p.live + {p.nextId}, p.nextId + 1))
  {
    var m := p.marks[uri := mark];
    assert MarkIds(m) == MarkIds(p.marks) + {p.nextId} by {
      forall id | id in MarkIds(m)
        ensures id in MarkIds(p.marks) + {p.nextId}
      {
        var u :| u in m && m[u].id == id;
        if u != uri {
          assert u in p.marks;
        }
      }
      forall id | id in MarkIds(p.marks)
        ensures id in MarkIds(m)
      {
        var u :| u in p.marks && p.marks[u].id == id;
        assert u in m && m[u].id == id;
      }
      assert m[uri].id == p.nextId;
    }
  }

  /** One event: `save` ignores a missing file; `open` reads `file.uri`
      without that check, so a missing file throws before anything else
      happens. A URI not ending in `.py` is ignored whatever the check would
      have said. */
  function HandleEvent(p: Plugin, ev: Event, outcome: CheckOutcome): (r: (Plugin, Effect))
    ensures ev.file.None? ==> r.0 == p
    ensures ev.file.None? ==> r.1 == if ev.Save? then Ignored else Escaped
    ensures ev.file.Some? && !IsPython(ev.file.value) ==> r == (p, Ignored)
    ensures ev.file.Some? && IsPython(ev.file.value) ==> r == LintFile(p, ev.file.value, outcome)
  {
    match ev.file
    case None => if ev.Save? then (p, Ignored) else (p, Escaped)
    case Some(uri) => if IsPython(uri) then LintFile(p, uri, outcome) else (p, Ignored)
  }

  /** `destroy`: every mark the table holds is cleared and the table is
      emptied. The handlers stay subscribed, so the result is still a plugin. */
  function Destroy(p: Plugin): (r: Plugin)
    ensures r.marks == map[]
    ensures r.live == p.live - MarkIds(p.marks)
    ensures Valid(p) ==> r.live == {} && Valid(r)
  {
    Plugin(map[], p.live - MarkIds(p.marks), p.nextId)
  }

  /** A run of events, each with the outcome its check would have. */
  function Run(p: Plugin, steps: seq<(Event, CheckOutcome)>): Plugin
    decreases |steps|
  {
    if |steps| == 0 then p
    else Run(HandleEvent(p, steps[0].0, steps[0].1).0, steps[1..])
  }

  /** Any run of events from a state where the table and the editor agree
      (`Init()` is one) keeps them in agreement, so `destroy` after it
      leaves no mark shown. */
  lemma {:induction false} RunKeepsValid(p: Plugin, steps: seq<(Event, CheckOutcome)>)
    requires Valid(p)
    ensures Valid(Run(p, steps))
    ensures Destroy(Run(p, steps)).live == {}
    decreases |steps|
  {
    if |steps| > 0 {
      var ev := steps[0].0;
      if ev.file.Some? && IsPython(ev.file.value) {
        LintFileKeepsValid(p, ev.file.value, steps[0].1);
      }
      RunKeepsValid(HandleEvent(p, steps[0].0, steps[0].1).0, steps[1..]);
    }
  }

  /** In agreement, the editor shows exactly one mark per file in the table. */
  lemma {:induction false} OneShownMarkPerFile(p: Plugin)
    requires Valid(p)
    ensures |p.live| == |p.marks|
  {
    InjectiveIdsCount(p.marks);
  }

  lemma {:induction false} InjectiveIdsCount(marks: map<Uri, Mark>)
    requires forall u, v :: u in marks && v in marks && u != v ==> marks[u].id != marks[v].id
    ensures |MarkIds(marks)| == |marks|
    decreases |marks|
  {
    if |marks| > 0 {
      var u :| u in marks;
      var rest := marks - {u};
      InjectiveIdsCount(rest);
      assert MarkIds(marks) == MarkIds(rest) + {marks[u].id} by {
        forall id | id in MarkIds(marks)
          ensures id in MarkIds(rest) + {marks[u].id}
        {
          var v :| v in marks && marks[v].id == id;
          if v != u {
            assert v in rest;
          }
        }
      }
      assert marks[u].id !in MarkIds(rest);
      assert |rest| == |marks| - 1 by {
        assert rest.Keys == marks.Keys - {u};
      }
    }
  }

  /** Linting the same file twice in a row leaves exactly one entry for it
      when the second check's error text parses, and none otherwise. */
  lemma RelintReplacesMark(p: Plugin, uri: Uri, first: CheckOutcome, second: CheckOutcome)
    requires Valid(p)
    requires second.Finished?
    ensures var q := LintFile(LintFile(p, uri, first).0, uri, second).0;
      && Valid(q)
      && (uri in q.marks <==> second.stderr != [] && ParseError(second.stderr).Some?)
      && |q.live| == |q.marks|
  {
    LintFileKeepsValid(p, uri, first);
    LintFileKeepsValid(LintFile(p, uri, first).0, uri, second);
    var q := LintFile(LintFile(p, uri, first).0, uri, second).0;
    OneShownMarkPerFile(q);
  }
}
