/**
 How the choice of protocol approvals depends on the order in which the database returns the rows, which the
 query of `protocolApprovals` in apps/api-ts/src/governance-role/governance-role.service.ts leaves open.
 */
module ProtocolOrders {
  import opened Wrappers
  import opened Governance
  import opened ProtocolApprovals

  predicate SameRowsAs(rows: seq<Approval>, order: seq<Approval>) {
    multiset(order) == multiset(rows)
  }

  /** The choice succeeds in this order of the rows, of which at most a hundred are read. */
  predicate Succeeds(s: State, order: seq<Approval>, now: int) {
    Chosen(s, Read(order), 3, now).Some?
  }

  /** The row may be taken next. */
  predicate FitsNext(s: State, picked: seq<Approval>, a: Approval, now: int)
    requires |picked| < 3
  {
    Fits(s, a, KINDS[|picked|], now, Actors(s, picked), RoleTypes(s, picked))
  }

  /** The rows that may be taken next, or those that may not, in their order. */
  function Those(s: State, rows: seq<Approval>, picked: seq<Approval>, now: int, fit: bool): seq<Approval>
    requires |picked| < 3
  {
    if rows == [] then []
    else (if FitsNext(s, picked, rows[0], now) == fit then [rows[0]] else []) + Those(s, rows[1..], picked, now, fit)
  }

  /**
   Whatever independent approvals were taken for the first kinds, fewer rows are unfit to be taken next than are
   read. As long as all rows are read, that is that one of them is fit.
   */
  ghost predicate NeverStuck(s: State, rows: seq<Approval>, now: int) {
    forall picked :: |picked| < 3 && Independent(s, rows, picked, now) ==>
      |Those(s, rows, picked, now, false)| < |Read(rows)|
  }

  ghost predicate SomeTriple(s: State, rows: seq<Approval>, now: int) {
    exists picked :: |picked| == 3 && Independent(s, rows, picked, now)
  }

  lemma IndependentInAnyOrder(s: State, rows: seq<Approval>, order: seq<Approval>, picked: seq<Approval>, now: int)
    requires SameRowsAs(rows, order) && Independent(s, rows, picked, now)
    ensures Independent(s, order, picked, now)
  {
    SameRows(rows, order);
  }

  lemma PickedAreCounted(s: State, rows: seq<Approval>, picked: seq<Approval>, now: int, i: nat)
    requires Independent(s, rows, picked, now) && i < |picked|
    ensures s.roles[picked[i].roleID].citizenID in Actors(s, picked) && s.roles[picked[i].roleID].roleType in RoleTypes(s, picked)
  {
    assert picked[i] in picked && Eligible(s, picked[i], KINDS[i], now);
  }

  lemma FittingStaysIndependent(s: State, rows: seq<Approval>, picked: seq<Approval>, a: Approval, now: int)
    requires |picked| < 3 && Independent(s, rows, picked, now)
    requires a in rows && Fits(s, a, KINDS[|picked|], now, Actors(s, picked), RoleTypes(s, picked))
    ensures Independent(s, rows, picked + [a], now)
  {
    forall i | 0 <= i < |picked|
      ensures s.roles[picked[i].roleID].citizenID != s.roles[a.roleID].citizenID
      ensures s.roles[picked[i].roleID].roleType != s.roles[a.roleID].roleType
    {
      PickedAreCounted(s, rows, picked, now, i);
    }
  }

  lemma IndependentFits(s: State, rows: seq<Approval>, picked: seq<Approval>, a: Approval, now: int)
    requires |picked| < 3 && Independent(s, rows, picked, now)
    requires Independent(s, rows, picked + [a], now)
    ensures a in rows && Fits(s, a, KINDS[|picked|], now, Actors(s, picked), RoleTypes(s, picked))
  {
    var more := picked + [a];
    assert more[|picked|] == a && Eligible(s, more[|picked|], KINDS[|picked|], now);
    forall x | x in picked && x.roleID in s.roles
      ensures s.roles[x.roleID].citizenID != s.roles[a.roleID].citizenID
      ensures s.roles[x.roleID].roleType != s.roles[a.roleID].roleType
    {
      var i :| 0 <= i < |picked| && picked[i] == x;
      assert more[i] == x;
    }
  }

  /** What may be taken next is exactly what keeps the choice independent. */
  lemma FitsIffIndependent(s: State, rows: seq<Approval>, picked: seq<Approval>, a: Approval, now: int)
    requires |picked| < 3 && Independent(s, rows, picked, now)
    ensures Independent(s, rows, picked + [a], now) <==>
            a in rows && Fits(s, a, KINDS[|picked|], now, Actors(s, picked), RoleTypes(s, picked))
  {
    if Independent(s, rows, picked + [a], now) {
      IndependentFits(s, rows, picked, a, now);
    } else if a in rows && Fits(s, a, KINDS[|picked|], now, Actors(s, picked), RoleTypes(s, picked)) {
      FittingStaysIndependent(s, rows, picked, a, now);
    }
  }

  /** The first row that fits is found behind rows that do not. */
  lemma {:induction false} FirstFitAt(s: State, rows: seq<Approval>, k: nat, kind: ApprovalType, now: int, actors: set<string>,
                                      roleTypes: set<RoleType>)
    requires k < |rows| && Fits(s, rows[k], kind, now, actors, roleTypes)
    requires forall i :: 0 <= i < k ==> !Fits(s, rows[i], kind, now, actors, roleTypes)
    ensures FirstFit(s, rows, kind, now, actors, roleTypes) == Some(rows[k])
  {
    if k > 0 {
      FirstFitAt(s, rows[1..], k - 1, kind, now, actors, roleTypes);
    }
  }

  lemma FrontIsIndependent(s: State, order: seq<Approval>, picked: seq<Approval>, n: nat, now: int)
    requires Independent(s, order, picked, now) && n <= |picked|
    ensures Independent(s, order, picked[..n], now)
  {
  }

  /** After the first n of them are taken, the next is the first row that fits. */
  lemma NextIsTheFirstFit(s: State, picked: seq<Approval>, order: seq<Approval>, n: nat, now: int)
    requires Independent(s, order, picked, now) && picked <= order && n < |picked|
    ensures FirstFit(s, order, KINDS[n], now, Actors(s, picked[..n]), RoleTypes(s, picked[..n])) == Some(picked[n])
  {
    var before := picked[..n];
    FrontIsIndependent(s, order, picked, n, now);
    FrontIsIndependent(s, order, picked, n + 1, now);
    assert picked[..n + 1] == before + [picked[n]];
    IndependentFits(s, order, before, picked[n], now);
    forall i | 0 <= i < n
      ensures order[i].kind != KINDS[n]
    {
      assert Eligible(s, picked[i], KINDS[i], now);
    }
    FirstFitAt(s, order, n, KINDS[n], now, Actors(s, before), RoleTypes(s, before));
  }

  /** Independent approvals that come first are the ones chosen. */
  lemma {:induction false} FrontIsChosen(s: State, picked: seq<Approval>, order: seq<Approval>, n: nat, now: int)
    requires Independent(s, order, picked, now) && picked <= order && n <= |picked|
    ensures Chosen(s, order, n, now) == Some(picked[..n])
  {
    if n > 0 {
      FrontIsChosen(s, picked, order, n - 1, now);
      NextIsTheFirstFit(s, picked, order, n - 1, now);
      assert picked[..n] == picked[..n - 1] + [picked[n - 1]];
    }
  }

  /** A row that is not among the first can be moved to the front of them. */
  lemma OneToFront(rows: seq<Approval>, front: seq<Approval>, a: Approval) returns (order: seq<Approval>)
    requires front <= rows && a in rows && a !in front
    ensures SameRowsAs(rows, order) && [a] + front <= order
  {
    var rest := rows[|front|..];
    assert rows == front + rest;
    var i :| 0 <= i < |rest| && rest[i] == a;
    assert rest == rest[..i] + [a] + rest[i + 1..];
    order := [a] + front + rest[..i] + rest[i + 1..];
    assert [a] + front == order[..1 + |front|];
  }

  /** Some order of the rows begins with the given ones. */
  lemma {:induction false} ToFrontAll(rows: seq<Approval>, picked: seq<Approval>) returns (order: seq<Approval>)
    requires forall i :: 0 <= i < |picked| ==> picked[i] in rows
    requires forall i, k :: 0 <= i < k < |picked| ==> picked[i] != picked[k]
    ensures SameRowsAs(rows, order) && picked <= order
  {
    if picked == [] {
      order := rows;
    } else {
      var tail := ToFrontAll(rows, picked[1..]);
      SameRows(rows, tail);
      order := OneToFront(tail, picked[1..], picked[0]);
      assert [picked[0]] + picked[1..] == picked;
    }
  }

  lemma PickedDiffer(s: State, rows: seq<Approval>, picked: seq<Approval>, now: int)
    requires Independent(s, rows, picked, now)
    ensures forall i, k :: 0 <= i < k < |picked| ==> picked[i] != picked[k]
  {
    forall i, k | 0 <= i < k < |picked|
      ensures picked[i] != picked[k]
    {
      assert Eligible(s, picked[i], KINDS[i], now) && Eligible(s, picked[k], KINDS[k], now);
    }
  }

  /** Independent approvals at the front of the rows are read and chosen. */
  lemma FrontIsReadAndChosen(s: State, rows: seq<Approval>, order: seq<Approval>, picked: seq<Approval>, now: int)
    requires Independent(s, rows, picked, now) && picked <= order
    ensures picked <= Read(order) && Independent(s, Read(order), picked, now)
    ensures Chosen(s, Read(order), |picked|, now) == Some(picked)
  {
    assert forall i :: 0 <= i < |picked| ==> Read(order)[i] == picked[i];
    assert Independent(s, Read(order), picked, now);
    FrontIsChosen(s, picked, Read(order), |picked|, now);
    assert picked[..|picked|] == picked;
  }

  /** The choice succeeds in some order of the rows exactly when three independent approvals are among them. */
  lemma SucceedsInSomeOrderIff(s: State, rows: seq<Approval>, now: int)
    ensures (exists order :: SameRowsAs(rows, order) && Succeeds(s, order, now)) <==> SomeTriple(s, rows, now)
  {
    if order :| SameRowsAs(rows, order) && Succeeds(s, order, now) {
      ChosenAreIndependent(s, Read(order), 3, now);
      ReadAreRows(s, order, Chosen(s, Read(order), 3, now).value, now);
      IndependentInAnyOrder(s, order, rows, Chosen(s, Read(order), 3, now).value, now);
    }
    if picked :| |picked| == 3 && Independent(s, rows, picked, now) {
      PickedDiffer(s, rows, picked, now);
      var order := ToFrontAll(rows, picked);
      FrontIsReadAndChosen(s, rows, order, picked, now);
      assert Succeeds(s, order, now);
    }
  }

  lemma ReadAreRows(s: State, order: seq<Approval>, picked: seq<Approval>, now: int)
    requires Independent(s, Read(order), picked, now)
    ensures Independent(s, order, picked, now)
  {
    assert forall x :: x in Read(order) ==> x in order;
  }

  // ----- rows that fit next, and rows that do not -----

  lemma {:induction false} ThoseCounted(s: State, rows: seq<Approval>, picked: seq<Approval>, now: int, fit: bool, x: Approval)
    requires |picked| < 3
    ensures multiset(Those(s, rows, picked, now, fit))[x] == if FitsNext(s, picked, x, now) == fit then multiset(rows)[x] else 0
  {
    if rows != [] {
      ThoseCounted(s, rows[1..], picked, now, fit, x);
      assert rows == [rows[0]] + rows[1..];
    }
  }

  lemma FitAndUnfitAreAll(s: State, rows: seq<Approval>, picked: seq<Approval>, now: int)
    requires |picked| < 3
    ensures multiset(Those(s, rows, picked, now, false) + Those(s, rows, picked, now, true)) == multiset(rows)
  {
    forall x
      ensures multiset(Those(s, rows, picked, now, false) + Those(s, rows, picked, now, true))[x] == multiset(rows)[x]
    {
      ThoseCounted(s, rows, picked, now, false, x);
      ThoseCounted(s, rows, picked, now, true, x);
    }
  }

  lemma InThose(s: State, rows: seq<Approval>, picked: seq<Approval>, now: int, fit: bool, x: Approval)
    requires |picked| < 3
    ensures x in Those(s, rows, picked, now, fit) <==> x in rows && FitsNext(s, picked, x, now) == fit
  {
    ThoseCounted(s, rows, picked, now, fit, x);
    assert x in Those(s, rows, picked, now, fit) <==> x in multiset(Those(s, rows, picked, now, fit));
    assert x in rows <==> x in multiset(rows);
  }

  /** As long as all rows are read, fewer are unfit than are read exactly if one of them can be taken next. */
  lemma FewerUnfitIffOneFits(s: State, rows: seq<Approval>, picked: seq<Approval>, now: int)
    requires |picked| < 3 && Independent(s, rows, picked, now) && |rows| <= MAX_ROWS
    ensures |Those(s, rows, picked, now, false)| < |Read(rows)| <==> exists a :: Independent(s, rows, picked + [a], now)
  {
    var unfit, fit := Those(s, rows, picked, now, false), Those(s, rows, picked, now, true);
    FitAndUnfitAreAll(s, rows, picked, now);
    assert |unfit + fit| == |multiset(unfit + fit)| == |multiset(rows)| == |rows|;
    if fit != [] {
      InThose(s, rows, picked, now, true, fit[0]);
      FitsIffIndependent(s, rows, picked, fit[0], now);
    }
    if a :| Independent(s, rows, picked + [a], now) {
      FitsIffIndependent(s, rows, picked, a, now);
      InThose(s, rows, picked, now, true, a);
    }
  }

  lemma SubmultisetSize<T>(a: multiset<T>, b: multiset<T>)
    requires a <= b
    ensures |a| <= |b|
  {
    assert b == a + (b - a);
  }

  /** If no row that is read fits next, all that are read are among the unfit. */
  lemma AllUnfit(s: State, rows: seq<Approval>, order: seq<Approval>, picked: seq<Approval>, now: int)
    requires |picked| < 3 && SameRowsAs(rows, order)
    requires forall x :: x in Read(order) ==> !FitsNext(s, picked, x, now)
    ensures |Read(rows)| <= |Those(s, rows, picked, now, false)|
  {
    var read, unfit := Read(order), Those(s, rows, picked, now, false);
    forall x
      ensures multiset(read)[x] <= multiset(unfit)[x]
    {
      ThoseCounted(s, rows, picked, now, false, x);
      assert order == read + order[|read|..];
      assert multiset(order)[x] == multiset(read)[x] + multiset(order[|read|..])[x];
      assert multiset(read)[x] > 0 ==> x in read;
    }
    SubmultisetSize(multiset(read), multiset(unfit));
    assert |order| == |multiset(order)| == |rows|;
  }

  lemma NextIsChosen(s: State, rows: seq<Approval>, order: seq<Approval>, n: nat, now: int)
    requires NeverStuck(s, rows, now) && SameRowsAs(rows, order) && n < 3 && Chosen(s, Read(order), n, now).Some?
    ensures Chosen(s, Read(order), n + 1, now).Some?
  {
    ChosenAreIndependent(s, Read(order), n, now);
    var before := Chosen(s, Read(order), n, now).value;
    ReadAreRows(s, order, before, now);
    IndependentInAnyOrder(s, order, rows, before, now);
    if Chosen(s, Read(order), n + 1, now).None? {
      AllUnfit(s, rows, order, before, now);
    }
  }

  lemma {:induction false} NeverStuckChooses(s: State, rows: seq<Approval>, order: seq<Approval>, n: nat, now: int)
    requires NeverStuck(s, rows, now) && SameRowsAs(rows, order) && n <= 3
    ensures Chosen(s, Read(order), n, now).Some?
  {
    if n > 0 {
      NeverStuckChooses(s, rows, order, n - 1, now);
      NextIsChosen(s, rows, order, n - 1, now);
    }
  }

  /** What was picked does not fit again, being of earlier kinds. */
  lemma PickedAreUnfit(s: State, rows: seq<Approval>, picked: seq<Approval>, now: int)
    requires |picked| < 3 && Independent(s, rows, picked, now)
    ensures forall i :: 0 <= i < |picked| ==> picked[i] in Those(s, rows, picked, now, false)
  {
    forall i | 0 <= i < |picked|
      ensures picked[i] in Those(s, rows, picked, now, false)
    {
      assert Eligible(s, picked[i], KINDS[i], now);
      InThose(s, rows, picked, now, false, picked[i]);
    }
  }

  /** An order that begins with what was picked and goes on with all other unfit rows. */
  lemma UnfitFirst(s: State, rows: seq<Approval>, picked: seq<Approval>, now: int) returns (order: seq<Approval>)
    requires |picked| < 3 && Independent(s, rows, picked, now)
    requires |Those(s, rows, picked, now, false)| >= |Read(rows)|
    ensures SameRowsAs(rows, order) && picked <= order
    ensures forall x :: x in Read(order) ==> !FitsNext(s, picked, x, now)
  {
    var unfit, fit := Those(s, rows, picked, now, false), Those(s, rows, picked, now, true);
    PickedDiffer(s, rows, picked, now);
    PickedAreUnfit(s, rows, picked, now);
    var front := ToFrontAll(unfit, picked);
    SameRows(unfit, front);
    order := front + fit;
    FitAndUnfitAreAll(s, rows, picked, now);
    assert multiset(order) == multiset(unfit) + multiset(fit);
    assert |order| == |multiset(order)| == |rows| && |front| == |multiset(front)| == |unfit|;
    forall x | x in Read(order)
      ensures !FitsNext(s, picked, x, now)
    {
      assert x in front;
      InThose(s, rows, picked, now, false, x);
    }
  }

  lemma StuckInSomeOrder(s: State, rows: seq<Approval>, picked: seq<Approval>, now: int) returns (order: seq<Approval>)
    requires |picked| < 3 && Independent(s, rows, picked, now)
    requires |Those(s, rows, picked, now, false)| >= |Read(rows)|
    ensures SameRowsAs(rows, order) && !Succeeds(s, order, now)
  {
    order := UnfitFirst(s, rows, picked, now);
    FrontIsReadAndChosen(s, rows, order, picked, now);
    assert Chosen(s, Read(order), |picked| + 1, now).None?;
    NoneStaysNone(s, Read(order), |picked| + 1, now);
  }

  /**
   ... and in every order exactly when no independent beginning gets stuck. In between, the same approvals
   are sent or refused depending on the order of the rows.
   */
  lemma SucceedsInEveryOrderIff(s: State, rows: seq<Approval>, now: int)
    ensures (forall order :: SameRowsAs(rows, order) ==> Succeeds(s, order, now)) <==> NeverStuck(s, rows, now)
  {
    if NeverStuck(s, rows, now) {
      forall order | SameRowsAs(rows, order)
        ensures Succeeds(s, order, now)
      {
        NeverStuckChooses(s, rows, order, 3, now);
      }
    }
    if forall order :: SameRowsAs(rows, order) ==> Succeeds(s, order, now) {
      forall picked | |picked| < 3 && Independent(s, rows, picked, now)
        ensures |Those(s, rows, picked, now, false)| < |Read(rows)|
      {
        if |Those(s, rows, picked, now, false)| >= |Read(rows)| {
          var order := StuckInSomeOrder(s, rows, picked, now);
        }
      }
    }
  }
}
