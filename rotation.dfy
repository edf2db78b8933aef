/** The "Niko of the Day" rotation as a state machine over the pick history.

    The history maps each niko already picked in the current cycle to the time it was
    picked. A call finds the latest pick; until the midnight after that pick the answer
    stays the same, and afterwards a niko not yet in the history is drawn at random (when
    every niko has been picked, the history is wiped first and the draw starts over). */
module Rotation {
  import opened Wrappers
  import opened Schema
  import opened Listing

  const SecondsPerDay: int := 86400

  /** The start of the day containing `t`. */
  function Midnight(t: Time): Time
  {
    t - t % SecondsPerDay
  }

  /** `datetime(t.year, t.month, t.day) + timedelta(days=1)`: the midnight that ends the
      day of `t`. */
  function RefreshAt(t: Time): (r: Time)
    ensures t < r <= t + SecondsPerDay
    ensures r % SecondsPerDay == 0
    ensures Midnight(t) < r
  {
    Midnight(t) + SecondsPerDay
  }

  /** Two times on the same day share their refresh deadline, and a later day's deadline
      is later. */
  lemma RefreshAtMonotone(a: Time, b: Time)
    requires a <= b
    ensures RefreshAt(a) <= RefreshAt(b)
    ensures b < RefreshAt(a) ==> RefreshAt(b) == RefreshAt(a)
  {
    var qa, qb := a / SecondsPerDay, b / SecondsPerDay;
    assert Midnight(a) == qa * SecondsPerDay && Midnight(b) == qb * SecondsPerDay;
    assert qa <= qb;
    if b < RefreshAt(a) {
      assert qb < qa + 1;
    }
  }

  /** One row of the history, as `SELECT * FROM notd` returns it. */
  datatype Pick = Pick(nikoId: Id, chosenAt: Time)

  /** What `get_notd` answers with: the niko of the day and the refresh deadline. */
  datatype NotdAnswer = NotdAnswer(niko: Niko, refreshAt: Time)

  function Entries(notd: map<Id, Time>): (rows: map<Id, Pick>)
    ensures rows.Keys == notd.Keys
    ensures forall k :: k in rows ==> rows[k] == Pick(k, notd[k])
  {
    map k | k in notd :: Pick(k, notd[k])
  }

  /** `ORDER BY chosen_at DESC`. */
  function ChosenAtKey(p: Pick): seq<int>
  {
    [p.chosenAt]
  }

  /** `m` is a most recent pick (ties are possible only for picks made in the same second). */
  ghost predicate IsLatest(notd: map<Id, Time>, m: Id)
  {
    m in notd && forall j :: j in notd ==> notd[j] <= notd[m]
  }

  /** The first row of the history ordered by `chosen_at DESC` is a latest pick. */
  lemma HeadIsLatest(rows: seq<Pick>, notd: map<Id, Time>)
    requires IsListing(rows, Entries(notd), ChosenAtKey, true) && |rows| > 0
    ensures rows[0].nikoId in notd && rows[0].chosenAt == notd[rows[0].nikoId]
    ensures IsLatest(notd, rows[0].nikoId)
  {
    var table := Entries(notd);
    ListingRows(rows, table, ChosenAtKey, true);
    var k0 :| k0 in table && table[k0] == rows[0];
    forall j | j in notd ensures notd[j] <= notd[k0] {
      var i :| 0 <= i < |rows| && rows[i] == table[j];
      if i > 0 {
        assert Before(ChosenAtKey, true, rows[0], rows[i]);
        SeqLeSingleton(rows[i].chosenAt, rows[0].chosenAt);
      }
    }
  }

  /** `DELETE FROM notd WHERE niko_id > bound`. */
  function DeleteWhereAbove(notd: map<Id, Time>, bound: int): (rest: map<Id, Time>)
    ensures forall j :: j in rest <==> j in notd && j <= bound
    ensures forall j :: j in rest ==> rest[j] == notd[j]
  {
    map j | j in notd && !(j > bound) :: notd[j]
  }

  /** Every niko has been picked in the current cycle. */
  ghost predicate Exhausted(nikos: map<Id, Niko>, notd: map<Id, Time>)
  {
    forall k :: k in nikos ==> k in notd
  }

  /** Drawing `k` at `now`: a niko not yet in the history is added to it; only when the
      history already holds every niko is it wiped and restarted with `k`. */
  ghost predicate Drawn(nikos: map<Id, Niko>, notd: map<Id, Time>, now: Time, k: Id, notd': map<Id, Time>)
  {
    && k in nikos
    && if Exhausted(nikos, notd) then notd' == map[k := now]
       else k !in notd && notd' == notd[k := now]
  }

  /** A draw keeps the store consistent: the history only ever names existing nikos. */
  lemma HistoryAfterDraw(db: Db, now: Time, k: Id, notd': map<Id, Time>)
    requires Consistent(db) && Drawn(db.nikos, db.notd, now, k, notd')
    ensures Consistent(db.(notd := notd'))
  {
    assert HistoryNikosExist(db.nikos, db.notd);
  }

  /** The answer after the latest pick `m` was found: that pick again, before its deadline;
      afterwards a new draw, reported with the deadline of the previous pick. */
  ghost predicate AfterLatest(nikos: map<Id, Niko>, notd: map<Id, Time>, now: Time,
                              r: Outcome<Option<NotdAnswer>>, notd': map<Id, Time>, m: Id)
  {
    && IsLatest(notd, m)
    && m in nikos
    && if now < RefreshAt(notd[m]) then
         r == Returns(Some(NotdAnswer(nikos[m], RefreshAt(notd[m])))) && notd' == notd
       else
         exists k :: DrawAnswer(nikos, notd, now, r, notd', k, RefreshAt(notd[m]))
  }

  /** Niko `k` was drawn, and the answer names it together with `deadline`. */
  ghost predicate DrawAnswer(nikos: map<Id, Niko>, notd: map<Id, Time>, now: Time,
                             r: Outcome<Option<NotdAnswer>>, notd': map<Id, Time>, k: Id, deadline: Time)
  {
    Drawn(nikos, notd, now, k, notd') && r == Returns(Some(NotdAnswer(nikos[k], deadline)))
  }

  /** One call of `get_notd` as written, from history `notd` to history `notd'`. */
  ghost predicate NotdStep(nikos: map<Id, Niko>, notd: map<Id, Time>, now: Time,
                           r: Outcome<Option<NotdAnswer>>, notd': map<Id, Time>)
  {
    if nikos == map[] then r == Returns(None) && notd' == notd
    else if notd == map[] then r == Raises(IndexError) && notd' == notd
    else exists m :: AfterLatest(nikos, notd, now, r, notd', m)
  }

  /** `get_notd` answers None exactly when there are no nikos, and then leaves the history. */
  lemma NotdNoneIff(nikos: map<Id, Niko>, notd: map<Id, Time>, now: Time, r: Outcome<Option<NotdAnswer>>, notd': map<Id, Time>)
    requires NotdStep(nikos, notd, now, r, notd')
    ensures r == Returns(None) <==> nikos == map[]
    ensures nikos == map[] ==> notd' == notd
  {
    if nikos != map[] && notd != map[] {
      var m :| AfterLatest(nikos, notd, now, r, notd', m);
    }
  }

  /** Before the deadline set by the latest pick, the answer is that pick and the history is
      not touched. */
  lemma NotdFresh(nikos: map<Id, Niko>, notd: map<Id, Time>, now: Time, r: Outcome<Option<NotdAnswer>>, notd': map<Id, Time>, m: Id)
    requires NotdStep(nikos, notd, now, r, notd')
    requires nikos != map[] && IsLatest(notd, m) && now < RefreshAt(notd[m])
    ensures notd' == notd
    ensures r.Returns? && r.value.Some? && r.value.value.refreshAt == RefreshAt(notd[m])
    ensures exists m' :: IsLatest(notd, m') && m' in nikos && r.value.value.niko == nikos[m']
  {
    var m' :| AfterLatest(nikos, notd, now, r, notd', m');
    assert notd[m] == notd[m'];
  }

  /** Once the deadline has passed, the answer is a freshly drawn niko: one not in the
      history, which grows by exactly that niko, or, when every niko was already picked,
      any niko, with the history restarted from it alone. */
  lemma NotdDraw(nikos: map<Id, Niko>, notd: map<Id, Time>, now: Time, r: Outcome<Option<NotdAnswer>>, notd': map<Id, Time>, m: Id)
    requires NotdStep(nikos, notd, now, r, notd')
    requires nikos != map[] && IsLatest(notd, m) && RefreshAt(notd[m]) <= now
    ensures r.Returns? && r.value.Some?
    ensures exists k :: k in nikos && r.value.value.niko == nikos[k] && Drawn(nikos, notd, now, k, notd')
    ensures |notd'| == |notd| + 1 || (Exhausted(nikos, notd) && |notd'| == 1)
  {
    var m' :| AfterLatest(nikos, notd, now, r, notd', m');
    assert notd[m] == notd[m'];
    var k :| DrawAnswer(nikos, notd, now, r, notd', k, RefreshAt(notd[m']));
    if !Exhausted(nikos, notd) {
      assert notd'.Keys == notd.Keys + {k};
    }
  }

  /** A step keeps the history inside the catalogue. */
  lemma NotdStepKeepsHistory(nikos: map<Id, Niko>, notd: map<Id, Time>, now: Time, r: Outcome<Option<NotdAnswer>>, notd': map<Id, Time>)
    requires NotdStep(nikos, notd, now, r, notd') && HistoryNikosExist(nikos, notd)
    ensures HistoryNikosExist(nikos, notd')
  {
    if nikos != map[] && notd != map[] {
      var m :| AfterLatest(nikos, notd, now, r, notd', m);
    }
  }

  /** Two calls inside one day answer with the same niko: after a draw at `now`, any call
      before the following midnight returns the niko just drawn and leaves the history. */
  lemma SameNikoUntilMidnight(nikos: map<Id, Niko>, notd: map<Id, Time>, now: Time,
                              r: Outcome<Option<NotdAnswer>>, notd': map<Id, Time>,
                              later: Time, r2: Outcome<Option<NotdAnswer>>, notd'': map<Id, Time>)
    requires NotdStep(nikos, notd, now, r, notd') && nikos != map[] && notd != map[]
    requires forall j :: j in notd ==> RefreshAt(notd[j]) <= now
    requires NotdStep(nikos, notd', later, r2, notd'') && now <= later < RefreshAt(now)
    ensures r.Returns? && r.value.Some? && r2.Returns? && r2.value.Some?
    ensures r2.value.value.niko == r.value.value.niko && r2.value.value.refreshAt == RefreshAt(now)
    ensures notd'' == notd'
  {
    var m :| AfterLatest(nikos, notd, now, r, notd', m);
    var k :| DrawAnswer(nikos, notd, now, r, notd', k, RefreshAt(notd[m]));
    // every earlier pick is older than `now`, so the new pick is the only latest one
    forall j | j in notd' && j != k ensures notd'[j] < now {
      assert j in notd && notd'[j] == notd[j];
    }
    assert IsLatest(notd', k);
    var m2 :| AfterLatest(nikos, notd', later, r2, notd'', m2);
    assert notd'[k] <= notd'[m2];
  }

  // ---------------------------------------------------------------------------
  // The two faults of the code as written, and the rotation as evidently intended
  // ---------------------------------------------------------------------------

  /** The latest pick is read before the emptiness of the history is tested, so with nikos
      present and an empty history (a fresh database, or one whose history was deleted) the
      call fails instead of making the first pick. */
  lemma EmptyHistoryFails(nikos: map<Id, Niko>, now: Time, r: Outcome<Option<NotdAnswer>>, notd': map<Id, Time>)
    requires NotdStep(nikos, map[], now, r, notd') && nikos != map[]
    ensures r == Raises(IndexError) && notd' == map[]
  {
  }

  /** A catalogue of one niko and an empty history is such a state, so the failure is
      reachable. */
  lemma EmptyHistoryFailsExample(n: Niko, now: Time)
    ensures NotdStep(map[1 := n], map[], now, Raises(IndexError), map[])
  {
    assert 1 in map[1 := n];
  }

  /** After a draw, the deadline returned is the one derived from the previous pick, which
      has already passed. */
  lemma DrawReturnsPastDeadline(nikos: map<Id, Niko>, notd: map<Id, Time>, now: Time, r: Outcome<Option<NotdAnswer>>, notd': map<Id, Time>, m: Id)
    requires NotdStep(nikos, notd, now, r, notd')
    requires nikos != map[] && IsLatest(notd, m) && RefreshAt(notd[m]) <= now
    ensures r.Returns? && r.value.Some? && r.value.value.refreshAt <= now
  {
    var m' :| AfterLatest(nikos, notd, now, r, notd', m');
    assert notd[m] == notd[m'];
  }

  /** The rotation as intended: an empty history leads to a first draw, and a draw reports
      the deadline that ends the day of the new pick. */
  ghost predicate NotdStepIntended(nikos: map<Id, Niko>, notd: map<Id, Time>, now: Time,
                                   r: Option<NotdAnswer>, notd': map<Id, Time>)
  {
    if nikos == map[] then r == None && notd' == notd
    else if notd != map[] && exists m :: IsLatest(notd, m) && m in nikos && now < RefreshAt(notd[m]) then
      exists m :: IsLatest(notd, m) && m in nikos && now < RefreshAt(notd[m]) &&
        r == Some(NotdAnswer(nikos[m], RefreshAt(notd[m]))) && notd' == notd
    else
      exists k :: k in nikos && Drawn(nikos, notd, now, k, notd') &&
        r == Some(NotdAnswer(nikos[k], RefreshAt(now)))
  }

  /** With the intended rotation every call on a non-empty catalogue answers with a niko
      and a deadline still ahead. */
  lemma IntendedAlwaysAnswers(nikos: map<Id, Niko>, notd: map<Id, Time>, now: Time, r: Option<NotdAnswer>, notd': map<Id, Time>)
    requires NotdStepIntended(nikos, notd, now, r, notd') && nikos != map[]
    ensures r.Some? && now < r.value.refreshAt
    ensures exists k :: k in nikos && r.value.niko == nikos[k]
  {
  }

  /** The intended rotation can always take a step, so the guarantee above is not vacuous. */
  lemma IntendedStepExists(nikos: map<Id, Niko>, notd: map<Id, Time>, now: Time)
    requires HistoryNikosExist(nikos, notd)
    ensures exists r, notd' :: NotdStepIntended(nikos, notd, now, r, notd')
  {
    if nikos == map[] {
      assert NotdStepIntended(nikos, notd, now, None, notd);
    } else if notd != map[] && exists m :: IsLatest(notd, m) && m in nikos && now < RefreshAt(notd[m]) {
      var m :| IsLatest(notd, m) && m in nikos && now < RefreshAt(notd[m]);
      assert NotdStepIntended(nikos, notd, now, Some(NotdAnswer(nikos[m], RefreshAt(notd[m]))), notd);
    } else {
      var k := DrawCandidate(nikos, notd);
      var notd' := if Exhausted(nikos, notd) then map[k := now] else notd[k := now];
      assert Drawn(nikos, notd, now, k, notd');
      assert NotdStepIntended(nikos, notd, now, Some(NotdAnswer(nikos[k], RefreshAt(now))), notd');
    }
  }

  /** A non-empty catalogue always offers a niko to draw: one outside the history, or any
      niko once the history holds them all. */
  lemma DrawCandidate(nikos: map<Id, Niko>, notd: map<Id, Time>) returns (k: Id)
    requires nikos != map[]
    ensures k in nikos && (Exhausted(nikos, notd) || k !in notd)
  {
    if Exhausted(nikos, notd) {
      k := PickKey(nikos);
    } else {
      k :| k in nikos && k !in notd;
    }
  }
}
