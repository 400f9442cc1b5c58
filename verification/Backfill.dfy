/** The batched backfill of the token-hash column
    (scripts/backfill_lexical_token_hashes.py). */
module Backfill {
  import opened Common
  import opened Text
  import opened Candidates

  /** A chunk row; an empty hash column is the un-backfilled sentinel. */
  datatype Row = Row(text: string, hashes: set<int>)

  type Rows = map<string, Row>

  /** The rows the SELECT would return without its LIMIT. */
  function Pending(rows: Rows): set<string> {
    set id | id in rows && rows[id].hashes == {} && rows[id].text != ""
  }

  /** The given rows written with the value ingest would write. */
  function Filled(u: Alphabet, h: string -> int, rows: Rows, ids: set<string>): Rows {
    map id | id in rows ::
      if id in ids then Row(rows[id].text, LexicalTokenHashes(u, h, rows[id].text)) else rows[id]
  }

  predicate BlankText(u: Alphabet, text: string) {
    forall i | 0 <= i < |text| :: u.space(text[i])
  }

  /** A pending row whose text is blank but not empty: its computed column is the sentinel again. */
  predicate Stuck(u: Alphabet, rows: Rows) {
    exists id | id in Pending(rows) :: BlankText(u, rows[id].text)
  }

  function BatchSize(batch: nat, pending: nat): nat {
    if batch < pending then batch else pending
  }

  class ChunkTable {
    var rows: Rows

    /** SELECT ... LIMIT: some batch of pending rows, in any order. */
    method SelectBatch(batch: nat) returns (ids: set<string>)
      ensures ids <= Pending(rows) <= rows.Keys && |ids| == BatchSize(batch, |Pending(rows)|)
    {
      ids := {};
      var rest := Pending(rows);
      while |ids| < batch && rest != {}
        invariant ids + rest == Pending(rows) && ids !! rest
        invariant |ids| <= batch && |ids| + |rest| == |Pending(rows)|
        decreases rest
      {
        var id :| id in rest;
        ids, rest := ids + {id}, rest - {id};
      }
    }

    /** One UPDATE per selected row. */
    method UpdateBatch(u: Alphabet, h: string -> int, ids: set<string>)
      requires ids <= rows.Keys
      modifies this
      ensures rows == Filled(u, h, old(rows), ids)
    {
      var rest := ids;
      while rest != {}
        invariant rest <= ids && rows == Filled(u, h, old(rows), ids - rest)
        decreases rest
      {
        var id :| id in rest;
        var row := rows[id];
        rows := rows[id := Row(row.text, LexicalTokenHashes(u, h, row.text))];
        rest := rest - {id};
      }
      assert ids - rest == ids;
    }

    /** The updates of one pass, with the progress they make. */
    method Pass(u: Alphabet, h: string -> int, ids: set<string>, ghost start: Rows, ghost done: set<string>)
      requires u.Valid() && ids <= Pending(rows) && Ongoing(u, h, start, done, rows)
      modifies this
      ensures done !! ids && Ongoing(u, h, start, done + ids, rows)
      ensures |Pending(rows)| == |old(Pending(rows))| - |ids|
    {
      hide Pending, Filled, Stuck;
      PassProgress(u, h, rows, ids);
      OngoingStep(u, h, start, done, rows, ids);
      PendingIsStored(rows);
      UpdateBatch(u, h, ids);
    }

    /** The select-and-update loop. Without a stuck row it ends, whatever order the batches take;
        with one it never does (`RunsExactlyUntilDone`). */
    method Run(u: Alphabet, h: string -> int, batch: nat, dryRun: bool) returns (updated: nat)
      requires u.Valid() && (batch >= 1 && !dryRun ==> !Stuck(u, rows))
      modifies this
      ensures dryRun || batch == 0 ==> rows == old(rows) && updated == 0
      ensures !dryRun && batch >= 1 ==> rows == Filled(u, h, old(rows), Pending(old(rows)))
      ensures !dryRun && batch >= 1 ==> Pending(rows) == {} && updated == |Pending(old(rows))|
    {
      hide Pending, Filled, Stuck, Ongoing;
      updated := 0;
      ghost var start := rows;
      ghost var done: set<string> := {};
      if !Stuck(u, rows) { OngoingStarts(u, h, rows); }
      while true
        invariant if batch == 0 || dryRun then rows == start && updated == 0 else Ongoing(u, h, start, done, rows) && updated == |done|
        decreases |Pending(rows)|
      {
        var ids := SelectBatch(batch);
        if |ids| == 0 {
          break;
        }
        if dryRun {
          break;
        }
        JoinSizes(done, ids);
        Pass(u, h, ids, start, done);
        done, updated := done + ids, updated + |ids|;
      }
      if batch >= 1 && !dryRun {
        OngoingEnds(u, h, start, done, rows);
      }
    }
  }

  /** Part of the pending rows is filled, the rest is still pending, and no row is stuck. */
  ghost predicate Ongoing(u: Alphabet, h: string -> int, start: Rows, done: set<string>, rows: Rows) {
    && rows == Filled(u, h, start, done) && done <= Pending(start)
    && Pending(rows) == Pending(start) - done && !Stuck(u, rows)
  }

  lemma PendingIsStored(rows: Rows)
    ensures Pending(rows) <= rows.Keys
  {
  }

  lemma OngoingStarts(u: Alphabet, h: string -> int, rows: Rows)
    requires !Stuck(u, rows)
    ensures Ongoing(u, h, rows, {}, rows)
  {
    FilledNone(u, h, rows);
  }

  lemma OngoingStep(u: Alphabet, h: string -> int, start: Rows, done: set<string>, rows: Rows, ids: set<string>)
    requires u.Valid() && Ongoing(u, h, start, done, rows) && ids <= Pending(rows)
    ensures Ongoing(u, h, start, done + ids, Filled(u, h, rows, ids))
  {
    hide Pending, Filled, Stuck;
    PassProgress(u, h, rows, ids);
    FilledTwice(u, h, start, done, ids);
    assert Pending(start) - done - ids == Pending(start) - (done + ids);
  }

  lemma OngoingEnds(u: Alphabet, h: string -> int, start: Rows, done: set<string>, rows: Rows)
    requires Ongoing(u, h, start, done, rows) && Pending(rows) == {}
    ensures done == Pending(start) && rows == Filled(u, h, start, Pending(start))
  {
    hide Pending, Filled, Stuck;
    assert done == Pending(start);
  }

  lemma JoinSizes(a: set<string>, b: set<string>)
    ensures a !! b ==> |a + b| == |a| + |b|
  {
  }

  lemma FilledNone(u: Alphabet, h: string -> int, rows: Rows)
    ensures Filled(u, h, rows, {}) == rows
  {
  }

  lemma FilledTwice(u: Alphabet, h: string -> int, rows: Rows, a: set<string>, b: set<string>)
    ensures Filled(u, h, Filled(u, h, rows, a), b) == Filled(u, h, rows, a + b)
  {
  }

  lemma PassPending(u: Alphabet, h: string -> int, rows: Rows, ids: set<string>)
    requires u.Valid() && ids <= Pending(rows)
    ensures Pending(Filled(u, h, rows, ids))
         == Pending(rows) - set id | id in ids && !BlankText(u, rows[id].text)
  {
    forall id | id in ids
      ensures LexicalTokenHashes(u, h, rows[id].text) == {} <==> BlankText(u, rows[id].text)
    {
      StoredEmptyIffBlank(u, h, rows[id].text);
    }
    hide LexicalTokenHashes, BlankText;
  }

  lemma PassStuck(u: Alphabet, h: string -> int, rows: Rows, ids: set<string>)
    requires u.Valid() && ids <= Pending(rows)
    ensures Stuck(u, Filled(u, h, rows, ids)) <==> Stuck(u, rows)
  {
    PassPending(u, h, rows, ids);
    hide LexicalTokenHashes, BlankText;
    var after := Filled(u, h, rows, ids);
    assert forall id | id in rows :: after[id].text == rows[id].text;
    assert forall id | id in Pending(rows) && BlankText(u, rows[id].text) :: id in Pending(after);
  }

  /** A pass takes exactly its selected rows out of the pending set, unless one of them is blank. */
  lemma PassProgress(u: Alphabet, h: string -> int, rows: Rows, ids: set<string>)
    requires u.Valid() && ids <= Pending(rows)
    ensures Stuck(u, Filled(u, h, rows, ids)) <==> Stuck(u, rows)
    ensures !Stuck(u, rows) ==> Pending(Filled(u, h, rows, ids)) == Pending(rows) - ids
    ensures !Stuck(u, rows) ==> |Pending(Filled(u, h, rows, ids))| == |Pending(rows)| - |ids|
  {
    PassPending(u, h, rows, ids);
    PassStuck(u, h, rows, ids);
    hide LexicalTokenHashes, BlankText, Pending, Filled;
    if !Stuck(u, rows) {
      assert (set id | id in ids && !BlankText(u, rows[id].text)) == ids;
      assert Pending(rows) == Pending(Filled(u, h, rows, ids)) + ids;
    }
  }

  /** A sequence of table states, each from the one before by one pass over some selected batch. */
  ghost predicate IsRun(u: Alphabet, h: string -> int, batch: nat, states: seq<Rows>) {
    states != [] && forall i | 0 <= i < |states| - 1 :: IsPass(u, h, batch, states[i], states[i + 1])
  }

  ghost predicate IsPass(u: Alphabet, h: string -> int, batch: nat, rows: Rows, next: Rows) {
    exists ids :: ids <= Pending(rows) && |ids| == BatchSize(batch, |Pending(rows)|) && next == Filled(u, h, rows, ids)
  }

  lemma {:induction false} RunKeepsStuck(u: Alphabet, h: string -> int, batch: nat, states: seq<Rows>)
    requires u.Valid() && IsRun(u, h, batch, states)
    ensures Stuck(u, states[|states| - 1]) <==> Stuck(u, states[0])
    ensures batch >= 1 && !Stuck(u, states[0]) ==>
              Pending(states[|states| - 1]) == {} || |Pending(states[|states| - 1])| + |states| - 1 <= |Pending(states[0])|
  {
    if |states| > 1 {
      RunPrefix(u, h, batch, states);
      RunKeepsStuck(u, h, batch, states[..|states| - 1]);
      PassStep(u, h, batch, states[|states| - 2], states[|states| - 1]);
    }
  }

  lemma RunPrefix(u: Alphabet, h: string -> int, batch: nat, states: seq<Rows>)
    requires IsRun(u, h, batch, states) && |states| > 1
    ensures IsRun(u, h, batch, states[..|states| - 1])
    ensures IsPass(u, h, batch, states[|states| - 2], states[|states| - 1])
  {
    hide IsPass;
    assert forall i | 0 <= i < |states| - 2 :: IsPass(u, h, batch, states[i], states[i + 1]);
    assert IsPass(u, h, batch, states[|states| - 2], states[|states| - 2 + 1]);
  }

  lemma PassStep(u: Alphabet, h: string -> int, batch: nat, rows: Rows, next: Rows)
    requires u.Valid() && IsPass(u, h, batch, rows, next)
    ensures Stuck(u, next) <==> Stuck(u, rows)
    ensures batch >= 1 && !Stuck(u, rows) ==> Pending(next) == {} || |Pending(next)| < |Pending(rows)|
  {
    var ids :| ids <= Pending(rows) && |ids| == BatchSize(batch, |Pending(rows)|) && next == Filled(u, h, rows, ids);
    hide Pending, Filled, Stuck;
    PassProgress(u, h, rows, ids);
  }

  lemma SomeSubset(s: set<string>, n: nat) returns (t: set<string>)
    requires n <= |s|
    ensures t <= s && |t| == n
  {
    t := {};
    while |t| < n
      invariant t <= s && |t| <= n
    {
      assert s == t + (s - t);
      assert s - t != {};
      var x :| x in s - t;
      t := t + {x};
    }
  }

  lemma {:induction false} SomeRun(u: Alphabet, h: string -> int, batch: nat, rows: Rows, n: nat) returns (states: seq<Rows>)
    ensures IsRun(u, h, batch, states) && states[0] == rows && |states| == n + 1
  {
    states := [rows];
    while |states| < n + 1
      invariant IsRun(u, h, batch, states) && states[0] == rows && |states| <= n + 1
    {
      var last := states[|states| - 1];
      var ids := SomeSubset(Pending(last), BatchSize(batch, |Pending(last)|));
      var next := Filled(u, h, last, ids);
      assert IsPass(u, h, batch, last, next);
      states := states + [next];
    }
  }

  /** The loop is done after at most as many passes as there are pending rows, in every order of the
      batches, exactly when no pending row has a blank text. Otherwise it is never done. */
  lemma RunsExactlyUntilDone(u: Alphabet, h: string -> int, batch: nat, rows: Rows)
    requires u.Valid() && batch >= 1
    ensures !Stuck(u, rows) <==>
            forall states | IsRun(u, h, batch, states) && states[0] == rows && |states| == |Pending(rows)| + 1 ::
              Pending(states[|states| - 1]) == {}
    ensures Stuck(u, rows) ==>
            forall states | IsRun(u, h, batch, states) && states[0] == rows :: Pending(states[|states| - 1]) != {}
  {
    forall states | IsRun(u, h, batch, states) && states[0] == rows
      ensures Stuck(u, rows) ==> Pending(states[|states| - 1]) != {}
      ensures !Stuck(u, rows) && |states| == |Pending(rows)| + 1 ==> Pending(states[|states| - 1]) == {}
    {
      RunKeepsStuck(u, h, batch, states);
    }
    var run := SomeRun(u, h, batch, rows, |Pending(rows)|);
  }

  /** Afterwards every row that was pending holds what ingest would write, every other row is
      untouched, and a second run finds nothing to do. */
  lemma BackfillOutcome(u: Alphabet, h: string -> int, rows: Rows)
    requires u.Valid() && !Stuck(u, rows)
    ensures var after := Filled(u, h, rows, Pending(rows));
      && after.Keys == rows.Keys
      && (forall id | id in Pending(rows) :: after[id] == Row(rows[id].text, LexicalTokenHashes(u, h, rows[id].text)))
      && (forall id | id in rows && id !in Pending(rows) :: after[id] == rows[id])
      && Pending(after) == {} && Filled(u, h, after, Pending(after)) == after
  {
    PassProgress(u, h, rows, Pending(rows));
    FilledNone(u, h, Filled(u, h, rows, Pending(rows)));
  }

  /** The smallest table the loop never finishes: one row whose text is a space. */
  lemma OneSpaceNeverEnds(u: Alphabet, h: string -> int, batch: nat, id: string, states: seq<Rows>)
    requires u.Valid() && IsRun(u, h, batch, states) && states[0] == map[id := Row(" ", {})]
    ensures Pending(states[|states| - 1]) != {}
  {
    var rows: Rows := map[id := Row(" ", {})];
    assert id in Pending(rows) && BlankText(u, rows[id].text);
    RunKeepsStuck(u, h, batch, states);
  }

  lemma OngoingPass(u: Alphabet, h: string -> int, batch: nat, start: Rows, done: set<string>, rows: Rows, next: Rows) returns (more: set<string>)
    requires u.Valid() && Ongoing(u, h, start, done, rows) && IsPass(u, h, batch, rows, next)
    ensures Ongoing(u, h, start, more, next)
  {
    var ids :| ids <= Pending(rows) && |ids| == BatchSize(batch, |Pending(rows)|) && next == Filled(u, h, rows, ids);
    hide *;
    OngoingStep(u, h, start, done, rows, ids);
    more := done + ids;
  }

  lemma {:induction false} RunIsOngoing(u: Alphabet, h: string -> int, batch: nat, states: seq<Rows>) returns (done: set<string>)
    requires u.Valid() && IsRun(u, h, batch, states) && !Stuck(u, states[0])
    ensures Ongoing(u, h, states[0], done, states[|states| - 1])
  {
    hide Pending, Filled, Stuck, IsPass, Ongoing;
    if |states| == 1 {
      OngoingStarts(u, h, states[0]);
      done := {};
    } else {
      RunPrefix(u, h, batch, states);
      done := RunIsOngoing(u, h, batch, states[..|states| - 1]);
      done := OngoingPass(u, h, batch, states[0], done, states[|states| - 2], states[|states| - 1]);
    }
  }

  ghost predicate NothingToDo(u: Alphabet, h: string -> int, batch: nat, rows: Rows) {
    forall next | IsPass(u, h, batch, rows, next) :: next == rows
  }

  /** However the batches are chosen, every finished run ends in the same table: what was pending holds
      what ingest would write, everything else is untouched, and running again changes nothing. */
  lemma EveryOrderEndsAlike(u: Alphabet, h: string -> int, batch: nat, states: seq<Rows>)
    requires u.Valid() && IsRun(u, h, batch, states) && !Stuck(u, states[0])
    requires Pending(states[|states| - 1]) == {}
    ensures states[|states| - 1] == Filled(u, h, states[0], Pending(states[0]))
    ensures NothingToDo(u, h, batch, states[|states| - 1])
  {
    var last := states[|states| - 1];
    hide Pending, Stuck, Ongoing;
    var done := RunIsOngoing(u, h, batch, states);
    OngoingEnds(u, h, states[0], done, last);
    FilledNone(u, h, last);
  }

  /** The stuck rows are those with an empty column whose text is not empty but all white space; an empty
      text is left alone and sticks nothing. */
  lemma StuckExactly(u: Alphabet, rows: Rows)
    ensures Stuck(u, rows) <==>
            exists id | id in rows :: rows[id].hashes == {} && |rows[id].text| > 0 && forall c | c in rows[id].text :: u.space(c)
  {
    forall id | id in rows
      ensures BlankText(u, rows[id].text) <==> forall c | c in rows[id].text :: u.space(c)
    {
      if BlankText(u, rows[id].text) {
        forall c | c in rows[id].text ensures u.space(c) { var i :| 0 <= i < |rows[id].text| && rows[id].text[i] == c; }
      }
    }
    if id :| id in rows && rows[id].hashes == {} && |rows[id].text| > 0 && forall c | c in rows[id].text :: u.space(c) {
      assert id in Pending(rows);
    }
  }

  /** What a finished run leaves, row by row: an empty column of a row with text holds what ingest would
      write, every other row is untouched; and without a stuck row only a row without text still has
      an empty column. */
  lemma DoneExactly(u: Alphabet, h: string -> int, rows: Rows, id: string)
    requires u.Valid() && id in rows
    ensures var r := Filled(u, h, rows, Pending(rows));
            && r.Keys == rows.Keys
            && r[id] == (if rows[id].hashes == {} && rows[id].text != ""
                         then Row(rows[id].text, LexicalTokenHashes(u, h, rows[id].text)) else rows[id])
            && (!Stuck(u, rows) ==> (r[id].hashes == {} <==> rows[id] == Row("", {})))
  {
    hide LexicalTokenHashes;
    StoredEmptyIffBlank(u, h, rows[id].text);
    if rows[id].hashes == {} && rows[id].text != "" { assert id in Pending(rows); }
  }
}
