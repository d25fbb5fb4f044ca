/** The reminder rule of `Planner.notify` in main.py: one pass over the
    pending rows that fires for each activity starting within the next five
    minutes, at most once per id over the life of the planner. The clock is a
    parameter: `now` and the start times are whole seconds. */
module Reminders {
  import opened Table

  /** NOTIFICATION_MINUTES of main.py. */
  const NOTIFICATION_MINUTES: int := 5

  /** The reminder window: the activity starts after `now`, and at most
      NOTIFICATION_MINUTES later. */
  predicate Imminent(inicio: int, now: int) {
    0 < inicio - now <= NOTIFICATION_MINUTES * 60
  }

  /** The window in seconds is the window main.py states in minutes,
      `0 < (inicio - now).total_seconds() / 60 <= NOTIFICATION_MINUTES`. */
  lemma ImminentInMinutes(inicio: int, now: int)
    ensures Imminent(inicio, now) <==>
      0.0 < (inicio - now) as real / 60.0 <= NOTIFICATION_MINUTES as real
  {
  }

  function Ids(ps: seq<Pending>): set<int> {
    set p | p in ps :: p.id
  }

  /** What one `notify` call shows, in order, given the pending rows `ps` and
      the ids `seen` already notified: a row fires when its id is not yet
      seen and it is imminent, and its id is seen from then on. */
  function Scan(ps: seq<Pending>, seen: set<int>, now: int): seq<Pending>
    decreases |ps|
  {
    if ps == [] then []
    else if ps[0].id !in seen && Imminent(ps[0].inicio, now) then
      [ps[0]] + Scan(ps[1..], seen + {ps[0].id}, now)
    else
      Scan(ps[1..], seen, now)
  }

  /** One step of the scan from position `i`: what has fired so far plus
      what the rest of the scan fires is the same before and after the step. */
  lemma ScanStep(ps: seq<Pending>, i: int, seen: set<int>, now: int, fired: seq<Pending>)
    requires 0 <= i < |ps|
    ensures ps[i].id !in seen && Imminent(ps[i].inicio, now) ==>
      fired + Scan(ps[i..], seen, now) == (fired + [ps[i]]) + Scan(ps[i + 1..], seen + {ps[i].id}, now)
    ensures !(ps[i].id !in seen && Imminent(ps[i].inicio, now)) ==>
      fired + Scan(ps[i..], seen, now) == fired + Scan(ps[i + 1..], seen, now)
  {
    assert ps[i..][0] == ps[i] && ps[i..][1..] == ps[i + 1..];
  }

  lemma IdsSnoc(fired: seq<Pending>, p: Pending)
    ensures Ids(fired + [p]) == Ids(fired) + {p.id}
  {
    assert forall q :: q in fired + [p] <==> q in fired || q == p;
  }

  /** No id occurs twice. */
  ghost predicate DistinctIds(s: seq<Pending>) {
    forall i, j :: 0 <= i < j < |s| ==> s[i].id != s[j].id
  }

  lemma IdsAppend(a: seq<Pending>, b: seq<Pending>)
    ensures Ids(a + b) == Ids(a) + Ids(b)
  {
    assert forall q :: q in a + b <==> q in a || q in b;
  }

  lemma DistinctAppend(a: seq<Pending>, b: seq<Pending>)
    requires DistinctIds(a) && DistinctIds(b) && Ids(a) !! Ids(b)
    ensures DistinctIds(a + b)
  {
    var s := a + b;
    forall i, j | 0 <= i < j < |s| ensures s[i].id != s[j].id {
      if i >= |a| {
        assert s[i] == b[i - |a|] && s[j] == b[j - |a|];
      } else if j >= |a| {
        assert s[i] == a[i] && s[j] == b[j - |a|];
        assert s[i].id in Ids(a) && s[j].id in Ids(b);
      } else {
        assert s[i] == a[i] && s[j] == a[j];
      }
    }
  }

  /** Everything a scan fires is a pending row, imminent, not notified
      before, and no id fires twice. */
  lemma {:induction false} ScanSound(ps: seq<Pending>, seen: set<int>, now: int)
    ensures var fired := Scan(ps, seen, now);
            && (forall q :: q in fired ==> q in ps && q.id !in seen && Imminent(q.inicio, now))
            && DistinctIds(fired)
    decreases |ps|
  {
    if ps != [] {
      var p := ps[0];
      assert forall q :: q in ps[1..] ==> q in ps;
      if p.id !in seen && Imminent(p.inicio, now) {
        ScanSound(ps[1..], seen + {p.id}, now);
        var rest := Scan(ps[1..], seen + {p.id}, now);
        assert Ids([p]) == {p.id};
        DistinctAppend([p], rest);
      } else {
        ScanSound(ps[1..], seen, now);
      }
    }
  }

  /** Every pending row that is imminent and whose id has not been notified
      gets its id notified by the scan. */
  lemma {:induction false} ScanComplete(ps: seq<Pending>, seen: set<int>, now: int)
    ensures forall p :: p in ps && p.id !in seen && Imminent(p.inicio, now) ==>
      p.id in Ids(Scan(ps, seen, now))
    decreases |ps|
  {
    if ps != [] {
      var p := ps[0];
      assert forall q :: q in ps ==> q == p || q in ps[1..];
      if p.id !in seen && Imminent(p.inicio, now) {
        ScanComplete(ps[1..], seen + {p.id}, now);
        var fired := Scan(ps, seen, now);
        assert fired[0] == p;
        forall q | q in ps && q.id !in seen && Imminent(q.inicio, now)
          ensures q.id in Ids(fired)
        {
          if q.id == p.id {
            assert fired[0] in fired;
          } else {
            var rest := Scan(ps[1..], seen + {p.id}, now);
            assert q.id in Ids(rest);
            var r :| r in rest && r.id == q.id;
            assert r in fired;
          }
        }
      } else {
        ScanComplete(ps[1..], seen, now);
      }
    }
  }

  /** A completed activity is never reminded: the scan runs over `pendentes`
      only, and ids are unique in the table. */
  lemma CompletedNeverNotified(rows: seq<Row>, seen: set<int>, now: int)
    requires IdsIncreasing(rows)
    ensures forall i :: 0 <= i < |rows| && rows[i].status != 0 ==>
      rows[i].id !in Ids(Scan(PendingOf(rows), seen, now))
  {
    var fired := Scan(PendingOf(rows), seen, now);
    ScanSound(PendingOf(rows), seen, now);
    PendingMembers(rows);
    forall i | 0 <= i < |rows| && rows[i].status != 0
      ensures rows[i].id !in Ids(fired)
    {
      forall q | q in fired ensures q.id != rows[i].id {
        var j :| 0 <= j < |rows| && rows[j].status == 0 && q == Project(rows[j]);
        IdentifiesOneRow(rows, i, j);
      }
    }
  }

  /** One timer tick: the pending rows read and the clock at that moment. */
  datatype Tick = Tick(pending: seq<Pending>, now: int)

  /** Successive `notify` calls: all reminders shown, in order, and the
      notified set they leave behind. */
  function Run(ticks: seq<Tick>, seen: set<int>): (seq<Pending>, set<int>)
    decreases |ticks|
  {
    if ticks == [] then ([], seen)
    else
      var fired := Scan(ticks[0].pending, seen, ticks[0].now);
      var (later, final) := Run(ticks[1..], seen + Ids(fired));
      (fired + later, final)
  }

  /** Across any sequence of calls the notified set only grows, by exactly
      the ids shown, and no id is ever shown twice. */
  lemma {:induction false} RunNeverRepeats(ticks: seq<Tick>, seen: set<int>)
    ensures var (shown, final) := Run(ticks, seen);
            && final == seen + Ids(shown)
            && Ids(shown) !! seen
            && DistinctIds(shown)
    decreases |ticks|
  {
    if ticks != [] {
      var t := ticks[0];
      var fired := Scan(t.pending, seen, t.now);
      ScanSound(t.pending, seen, t.now);
      RunNeverRepeats(ticks[1..], seen + Ids(fired));
      var (later, final) := Run(ticks[1..], seen + Ids(fired));
      IdsAppend(fired, later);
      DistinctAppend(fired, later);
    }
  }

  // ---------------------------------------------------------------------------
  // A tick that arrives while a reminder box is open

  /** main.py shows the modal box for a row before it records the row's id,
      and the 60-second timer keeps firing inside the box's event loop. This
      is what is shown when the call at `now` reaches position `i`, opens
      the box for `ps[i]`, and a tick at `later` runs `notify` before the box
      is closed: the reminders so far, the box for `ps[i]`, then a whole scan
      from the ids recorded so far, which do not yet include `ps[i].id`. */
  function ShowThenRecord(ps: seq<Pending>, seen: set<int>, now: int, i: int, later: int): seq<Pending>
    requires 0 <= i < |ps|
  {
    var before := Scan(ps[..i], seen, now);
    var recorded := seen + Ids(before);
    if ps[i].id !in recorded && Imminent(ps[i].inicio, now) then
      before + [ps[i]] + Scan(ps, recorded, later)
    else
      before
  }

  /** If the activity is still within its window at the nested tick, the
      same reminder is shown twice. */
  lemma ShowThenRecordRepeats(ps: seq<Pending>, seen: set<int>, now: int, i: int, later: int)
    requires 0 <= i < |ps|
    requires ps[i].id !in seen + Ids(Scan(ps[..i], seen, now))
    requires Imminent(ps[i].inicio, now) && Imminent(ps[i].inicio, later)
    ensures !DistinctIds(ShowThenRecord(ps, seen, now, i, later))
  {
    var before := Scan(ps[..i], seen, now);
    var recorded := seen + Ids(before);
    var nested := Scan(ps, recorded, later);
    ScanComplete(ps, recorded, later);
    assert ps[i] in ps;
    var q :| q in nested && q.id == ps[i].id;
    var j :| 0 <= j < |nested| && nested[j] == q;
    var shown := before + [ps[i]] + nested;
    assert shown[|before|] == ps[i];
    assert shown[|before| + 1 + j] == q;
  }

  /** One activity starting at 300 s, a call at 0 s and a tick at 60 s while
      its box is open: the reminder appears twice. */
  lemma ShownTwice()
    ensures var p := Pending(1, "Reunião", 300);
            ShowThenRecord([p], {}, 0, 0, 60) == [p, p]
  {
    var p := Pending(1, "Reunião", 300);
    assert [p][..0] == [];
    assert [p][1..] == [];
  }

  /** The evident intent: the id is recorded before the box is shown, so a
      tick inside the box sees it. */
  function RecordThenShow(ps: seq<Pending>, seen: set<int>, now: int, i: int, later: int): seq<Pending>
    requires 0 <= i < |ps|
  {
    var before := Scan(ps[..i], seen, now);
    var recorded := seen + Ids(before);
    if ps[i].id !in recorded && Imminent(ps[i].inicio, now) then
      before + [ps[i]] + Scan(ps, recorded + {ps[i].id}, later)
    else
      before
  }

  /** Recording first, a tick inside the box never repeats a reminder, and
      nothing notified before is shown. */
  lemma RecordThenShowNeverRepeats(ps: seq<Pending>, seen: set<int>, now: int, i: int, later: int)
    requires 0 <= i < |ps|
    ensures var shown := RecordThenShow(ps, seen, now, i, later);
            DistinctIds(shown) && Ids(shown) !! seen
  {
    var before := Scan(ps[..i], seen, now);
    ScanSound(ps[..i], seen, now);
    var recorded := seen + Ids(before);
    var p := ps[i];
    if p.id !in recorded && Imminent(p.inicio, now) {
      var nested := Scan(ps, recorded + {p.id}, later);
      ScanSound(ps, recorded + {p.id}, later);
      assert Ids([p]) == {p.id};
      DistinctAppend(before, [p]);
      IdsAppend(before, [p]);
      DistinctAppend(before + [p], nested);
      IdsAppend(before + [p], nested);
    }
  }
}
