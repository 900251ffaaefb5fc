/**
 The pairwise duplicate-handle scan (apps/api-ts/src/identity/duplicate-detection.service.ts).

 Unicode normalisation is a parameter, and the citizen table is the sequence of its rows.
 */
module DuplicateScan {
  import opened Wrappers
  import opened Sizes
  import opened EditDistance

  datatype Citizen = Citizen(id: string, publicHandle: string, revoked: bool)

  datatype Signal = Signal(citizenIdA: string, citizenIdB: string, distance: nat)

  datatype ScanError = PopulationTooLarge | OversizedHandle | TooManySignals

  const HANDLE_SIMILARITY_THRESHOLD: nat := 2
  const MAX_POPULATION: nat := 500
  const MAX_HANDLE: nat := 64
  const MAX_SIGNALS: nat := 1000

  function NonRevoked(rows: seq<Citizen>): seq<Citizen> {
    if rows == [] then []
    else
      var last := rows[|rows| - 1];
      NonRevoked(rows[..|rows| - 1]) + if last.revoked then [] else [last]
  }

  function Take<T>(xs: seq<T>, n: nat): seq<T> {
    if |xs| <= n then xs else xs[..n]
  }

  predicate Near(a: string, b: string) {
    Distance(a, b) <= HANDLE_SIMILARITY_THRESHOLD
  }

  datatype Pair = Pair(first: nat, second: nat)

  /** Whether the handles at two positions are near. */
  function NearIn(handles: seq<string>): (nat, nat) -> bool {
    (i: nat, k: nat) => i < |handles| && k < |handles| && Near(handles[i], handles[k])
  }

  /** The near pairs (i, k) with i < k < j, in order. */
  function RowPairs(near: (nat, nat) -> bool, i: nat, j: nat): seq<Pair> {
    if j <= i + 1 then [] else RowPairs(near, i, j - 1) + if near(i, j - 1) then [Pair(i, j - 1)] else []
  }

  /** The first i rows, one after another. */
  function Rows(row: nat -> seq<Pair>, i: nat): seq<Pair> {
    if i == 0 then [] else Rows(row, i - 1) + row(i - 1)
  }

  function RowOf(near: (nat, nat) -> bool, n: nat): nat -> seq<Pair> {
    (i: nat) => RowPairs(near, i, n)
  }

  function NearPairs(handles: seq<string>): seq<Pair> {
    Rows(RowOf(NearIn(handles), |handles|), |handles|)
  }

  predicate Lexicographic(p: Pair, q: Pair) {
    p.first < q.first || (p.first == q.first && p.second < q.second)
  }

  predicate Ordered(pairs: seq<Pair>) {
    forall k, l :: 0 <= k < l < |pairs| ==> Lexicographic(pairs[k], pairs[l])
  }

  lemma {:induction false} RowPairsExact(near: (nat, nat) -> bool, i: nat, j: nat, p: Pair)
    ensures p in RowPairs(near, i, j) <==> p.first == i && i < p.second < j && near(i, p.second)
    decreases j
  {
    if j > i + 1 {
      RowPairsExact(near, i, j - 1, p);
    }
  }

  lemma {:induction false} RowPairsOrdered(near: (nat, nat) -> bool, i: nat, j: nat)
    ensures Ordered(RowPairs(near, i, j))
    decreases j
  {
    if j > i + 1 {
      RowPairsOrdered(near, i, j - 1);
      forall p | p in RowPairs(near, i, j - 1)
        ensures p.first == i && p.second < j - 1
      {
        RowPairsExact(near, i, j - 1, p);
      }
    }
  }

  lemma OrderedJoins(front: seq<Pair>, row: seq<Pair>, i: nat)
    requires Ordered(front) && Ordered(row)
    requires (forall p: Pair :: p in front ==> p.first < i) && (forall p: Pair :: p in row ==> p.first == i)
    ensures Ordered(front + row)
  {
    forall k, l | 0 <= k < l < |front + row|
      ensures Lexicographic((front + row)[k], (front + row)[l])
    {
      if k < |front| <= l {
        assert front[k] in front && row[l - |front|] in row;
      }
    }
  }

  /** Every row holds pairs of its own first member only. */
  ghost predicate RowsApart(row: nat -> seq<Pair>) {
    forall i, p :: p in row(i) ==> p.first == i
  }

  lemma {:induction false} RowsExact(row: nat -> seq<Pair>, i: nat, p: Pair)
    requires RowsApart(row)
    ensures p in Rows(row, i) <==> p.first < i && p in row(p.first)
  {
    if i > 0 {
      RowsExact(row, i - 1, p);
    }
  }

  lemma {:induction false} RowsOrdered(row: nat -> seq<Pair>, i: nat)
    requires RowsApart(row) && forall k :: Ordered(row(k))
    ensures Ordered(Rows(row, i))
  {
    if i > 0 {
      RowsOrdered(row, i - 1);
      forall p | p in Rows(row, i - 1)
        ensures p.first < i - 1
      {
        RowsExact(row, i - 1, p);
      }
      OrderedJoins(Rows(row, i - 1), row(i - 1), i - 1);
    }
  }

  lemma RowsOfNear(near: (nat, nat) -> bool, n: nat)
    ensures RowsApart(RowOf(near, n)) && forall k :: Ordered(RowOf(near, n)(k))
  {
    forall i, p | p in RowOf(near, n)(i)
      ensures p.first == i
    {
      RowPairsExact(near, i, n, p);
    }
    forall k
      ensures Ordered(RowOf(near, n)(k))
    {
      RowPairsOrdered(near, k, n);
    }
  }

  /** Every pair of near handles is listed, nothing else is, and no pair is listed twice. */
  lemma NearPairsExact(handles: seq<string>)
    ensures forall i: nat, j: nat :: Pair(i, j) in NearPairs(handles) <==>
                                     i < j < |handles| && Distance(handles[i], handles[j]) <= 2
    ensures Ordered(NearPairs(handles))
  {
    var near, n := NearIn(handles), |handles|;
    RowsOfNear(near, n);
    RowsOrdered(RowOf(near, n), n);
    forall i: nat, j: nat
      ensures Pair(i, j) in NearPairs(handles) <==> i < j < |handles| && Distance(handles[i], handles[j]) <= 2
    {
      RowsExact(RowOf(near, n), n, Pair(i, j));
      RowPairsExact(near, i, n, Pair(i, j));
    }
  }

  function Handles(citizens: seq<Citizen>, normalize: string -> string): (handles: seq<string>)
    ensures |handles| == |citizens| && forall i :: 0 <= i < |citizens| ==> handles[i] == normalize(citizens[i].publicHandle)
  {
    seq(|citizens|, i requires 0 <= i < |citizens| => normalize(citizens[i].publicHandle))
  }

  /** The signals a list of pairs stands for. */
  predicate Reports(citizens: seq<Citizen>, handles: seq<string>, pairs: seq<Pair>, signals: seq<Signal>) {
    && |signals| == |pairs|
    && |handles| == |citizens|
    && forall k :: 0 <= k < |pairs| ==>
                     && pairs[k].first < |citizens| && pairs[k].second < |citizens|
                     && signals[k] == Signal(citizens[pairs[k].first].id, citizens[pairs[k].second].id,
                                             Distance(handles[pairs[k].first], handles[pairs[k].second]))
  }

  lemma {:induction false} RowGrows(near: (nat, nat) -> bool, i: nat, j: nat, n: nat)
    requires j <= n
    ensures |RowPairs(near, i, j)| <= |RowPairs(near, i, n)|
    decreases n
  {
    if j < n {
      RowGrows(near, i, j, n - 1);
    }
  }

  lemma {:induction false} RowsGrow(row: nat -> seq<Pair>, i: nat, n: nat)
    requires i <= n
    ensures |Rows(row, i)| <= |Rows(row, n)|
    decreases n
  {
    if i < n {
      RowsGrow(row, i, n - 1);
    }
  }

  lemma OneRowMore(row: nat -> seq<Pair>, i: nat, n: nat, k: nat)
    requires i < n && k <= |row(i)|
    ensures |Rows(row, i)| + k <= |Rows(row, n)|
  {
    RowsGrow(row, i + 1, n);
  }

  /** The list only grows as the scan goes on. */
  lemma MorePairsRemain(near: (nat, nat) -> bool, n: nat, i: nat, j: nat)
    requires i < n && j <= n
    ensures |Rows(RowOf(near, n), i)| + |RowPairs(near, i, j)| <= |Rows(RowOf(near, n), n)|
  {
    RowGrows(near, i, j, n);
    OneRowMore(RowOf(near, n), i, n, |RowPairs(near, i, j)|);
  }

  /** One more signal for one more pair. */
  lemma ReportsExtends(citizens: seq<Citizen>, handles: seq<string>, pairs: seq<Pair>, signals: seq<Signal>,
                       i: nat, j: nat)
    requires Reports(citizens, handles, pairs, signals)
    requires i < |citizens| && j < |citizens|
    ensures Reports(citizens, handles, pairs + [Pair(i, j)],
                    signals + [Signal(citizens[i].id, citizens[j].id, Distance(handles[i], handles[j]))])
  {
  }

  /** The scan so far: a signal for each of the pairs, and no more of them than are reported at all. */
  ghost predicate Scanned(citizens: seq<Citizen>, handles: seq<string>, pairs: seq<Pair>, signals: seq<Signal>) {
    Reports(citizens, handles, pairs, signals) && |pairs| <= MAX_SIGNALS
  }

  /** What has been found once row i has been compared up to position j. */
  function Found(handles: seq<string>, i: nat, j: nat): seq<Pair> {
    Rows(RowOf(NearIn(handles), |handles|), i) + RowPairs(NearIn(handles), i, j)
  }

  /** A comparison whose handles are near adds one pair, any other nothing. */
  lemma OnePairMore(handles: seq<string>, i: nat, j: nat)
    requires i < j < |handles|
    ensures Found(handles, i, j + 1) ==
            Found(handles, i, j) + if Distance(handles[i], handles[j]) <= HANDLE_SIMILARITY_THRESHOLD then [Pair(i, j)] else []
  {
    assert NearIn(handles)(i, j) <==> Distance(handles[i], handles[j]) <= HANDLE_SIMILARITY_THRESHOLD;
  }

  lemma RowBegins(handles: seq<string>, i: nat)
    ensures Found(handles, i, i + 1) == Rows(RowOf(NearIn(handles), |handles|), i)
    ensures Found(handles, i, |handles|) == Rows(RowOf(NearIn(handles), |handles|), i + 1)
  {
  }

  /** A near pair is reported, unless a thousand are already. */
  lemma NearIsReported(citizens: seq<Citizen>, handles: seq<string>, i: nat, j: nat, signals: seq<Signal>)
    requires i < j < |handles| == |citizens| && Scanned(citizens, handles, Found(handles, i, j), signals)
    requires Distance(handles[i], handles[j]) <= HANDLE_SIMILARITY_THRESHOLD
    ensures |signals| >= MAX_SIGNALS ==> |NearPairs(handles)| > MAX_SIGNALS
    ensures |signals| < MAX_SIGNALS ==>
              Scanned(citizens, handles, Found(handles, i, j + 1),
                      signals + [Signal(citizens[i].id, citizens[j].id, Distance(handles[i], handles[j]))])
  {
    OnePairMore(handles, i, j);
    MorePairsRemain(NearIn(handles), |handles|, i, j + 1);
    ReportsExtends(citizens, handles, Found(handles, i, j), signals, i, j);
  }

  lemma FarIsPassedOver(handles: seq<string>, i: nat, j: nat)
    requires i < j < |handles| && Distance(handles[i], handles[j]) > HANDLE_SIMILARITY_THRESHOLD
    ensures Found(handles, i, j + 1) == Found(handles, i, j)
  {
    OnePairMore(handles, i, j);
  }

  /** The double loop: one signal for every near pair, refused once there would be more than a thousand. */
  method CompareAll(citizens: seq<Citizen>, handles: seq<string>) returns (r: Result<seq<Signal>, ScanError>)
    requires |handles| == |citizens|
    ensures if |NearPairs(handles)| > MAX_SIGNALS then r == Err(TooManySignals)
            else r.Ok? && Reports(citizens, handles, NearPairs(handles), r.value)
  {
    var signals: seq<Signal> := [];
    ghost var rows := RowOf(NearIn(handles), |handles|);
    for i := 0 to |handles|
      invariant Scanned(citizens, handles, Rows(rows, i), signals)
    {
      RowBegins(handles, i);
      for j := i + 1 to |handles|
        invariant Scanned(citizens, handles, Found(handles, i, j), signals)
      {
        var distance := Levenshtein(handles[i], handles[j]);
        if distance <= HANDLE_SIMILARITY_THRESHOLD {
          NearIsReported(citizens, handles, i, j, signals);
          if |signals| >= MAX_SIGNALS {
            return Err(TooManySignals);
          }
          signals := signals + [Signal(citizens[i].id, citizens[j].id, distance)];
        } else {
          FarIsPassedOver(handles, i, j);
        }
      }
    }
    return Ok(signals);
  }

  // ----- the scan in terms of the rows -----

  /** The places in the table that a scan looks at. */
  function Places(rows: seq<Citizen>): set<nat> {
    set i: nat | i < |rows| && !rows[i].revoked
  }

  /** Two of them, in order, whose normalised handles are two edits apart or less. */
  predicate NearPlaces(rows: seq<Citizen>, normalize: string -> string, p: Pair) {
    && p.first < p.second < |rows| && !rows[p.first].revoked && !rows[p.second].revoked
    && Distance(normalize(rows[p.first].publicHandle), normalize(rows[p.second].publicHandle)) <= 2
  }

  /** All the near places there are, each once, in the order of the rows. */
  ghost predicate ListsNearPlaces(rows: seq<Citizen>, normalize: string -> string, places: seq<Pair>) {
    && (forall p :: p in places <==> NearPlaces(rows, normalize, p))
    && (forall k, l :: 0 <= k < l < |places| ==>
          places[k].first < places[l].first || (places[k].first == places[l].first && places[k].second < places[l].second))
  }

  /** One signal for each of them, with the ids of the two rows. */
  ghost predicate SignalsFor(rows: seq<Citizen>, normalize: string -> string, places: seq<Pair>, signals: seq<Signal>) {
    && |signals| == |places|
    && forall k :: 0 <= k < |places| ==>
         && places[k].first < |rows| && places[k].second < |rows|
         && signals[k].citizenIdA == rows[places[k].first].id && signals[k].citizenIdB == rows[places[k].second].id
         && signals[k].distance == Distance(normalize(rows[places[k].first].publicHandle), normalize(rows[places[k].second].publicHandle))
  }

  /** `at` says where in the table each of the scanned citizens stands. */
  ghost predicate StandsAt(rows: seq<Citizen>, citizens: seq<Citizen>, at: seq<nat>) {
    && |at| == |citizens|
    && (forall k :: 0 <= k < |at| ==> at[k] < |rows| && citizens[k] == rows[at[k]])
    && (forall k, l :: 0 <= k < l < |at| ==> at[k] < at[l])
    && (forall i: nat :: i in at <==> i < |rows| && !rows[i].revoked)
  }

  lemma {:induction false} NonRevokedStand(rows: seq<Citizen>) returns (at: seq<nat>)
    ensures StandsAt(rows, NonRevoked(rows), at)
  {
    if rows == [] {
      at := [];
    } else {
      var n := |rows| - 1;
      var front := NonRevokedStand(rows[..n]);
      at := front + if rows[n].revoked then [] else [n];
      StandsAtOneMore(rows, NonRevoked(rows[..n]), front);
    }
  }

  lemma StandsAtOneMore(rows: seq<Citizen>, citizens: seq<Citizen>, at: seq<nat>)
    requires rows != [] && StandsAt(rows[..|rows| - 1], citizens, at)
    ensures var n := |rows| - 1;
            StandsAt(rows, citizens + (if rows[n].revoked then [] else [rows[n]]), at + if rows[n].revoked then [] else [n])
  {
    var n := |rows| - 1;
    var more := at + if rows[n].revoked then [] else [n];
    forall k | 0 <= k < |at|
      ensures at[k] < n
    {
      assert at[k] in at;
    }
    forall i: nat
      ensures i in more <==> i < |rows| && !rows[i].revoked
    {
      assert i in more <==> i in at || (!rows[n].revoked && i == n);
    }
  }

  lemma AsManyAsPlaces(rows: seq<Citizen>)
    ensures |NonRevoked(rows)| == |Places(rows)|
  {
    var at := NonRevokedStand(rows);
    DistinctSize(at);
    assert Elements(at) == Places(rows);
  }

  function PlacesOf(at: seq<nat>, pairs: seq<Pair>): (places: seq<Pair>)
    requires forall k :: 0 <= k < |pairs| ==> pairs[k].first < |at| && pairs[k].second < |at|
    ensures |places| == |pairs|
    ensures forall k :: 0 <= k < |pairs| ==> places[k] == Pair(at[pairs[k].first], at[pairs[k].second])
  {
    seq(|pairs|, k requires 0 <= k < |pairs| => Pair(at[pairs[k].first], at[pairs[k].second]))
  }

  /** The list holds the near pairs of scanned citizens. */
  ghost predicate ListsNearPairs(handles: seq<string>, pairs: seq<Pair>) {
    forall i: nat, k: nat :: Pair(i, k) in pairs <==> i < k < |handles| && Distance(handles[i], handles[k]) <= 2
  }

  lemma PairAtPlace(rows: seq<Citizen>, normalize: string -> string, at: seq<nat>, pairs: seq<Pair>, p: Pair)
    requires StandsAt(rows, NonRevoked(rows), at) && ListsNearPairs(Handles(NonRevoked(rows), normalize), pairs) && p in pairs
    ensures p.first < |at| && p.second < |at| && NearPlaces(rows, normalize, Pair(at[p.first], at[p.second]))
  {
    assert Pair(p.first, p.second) in pairs;
    assert at[p.first] in at && at[p.second] in at;
  }

  lemma PlaceAtPair(rows: seq<Citizen>, normalize: string -> string, at: seq<nat>, pairs: seq<Pair>, p: Pair) returns (q: Pair)
    requires StandsAt(rows, NonRevoked(rows), at) && ListsNearPairs(Handles(NonRevoked(rows), normalize), pairs)
    requires NearPlaces(rows, normalize, p)
    ensures q in pairs && q.first < |at| && q.second < |at| && Pair(at[q.first], at[q.second]) == p
  {
    assert p.first in at && p.second in at;
    var i :| 0 <= i < |at| && at[i] == p.first;
    var k :| 0 <= k < |at| && at[k] == p.second;
    q := Pair(i, k);
  }

  /** A list of pairs of scanned citizens, read as places in the table. */
  lemma PairsAtPlaces(rows: seq<Citizen>, normalize: string -> string, at: seq<nat>, pairs: seq<Pair>)
    requires StandsAt(rows, NonRevoked(rows), at) && ListsNearPairs(Handles(NonRevoked(rows), normalize), pairs)
    ensures forall k :: 0 <= k < |pairs| ==> pairs[k].first < |at| && pairs[k].second < |at|
    ensures forall p :: p in PlacesOf(at, pairs) <==> NearPlaces(rows, normalize, p)
  {
    forall k | 0 <= k < |pairs|
      ensures pairs[k].first < |at| && pairs[k].second < |at|
    {
      PairAtPlace(rows, normalize, at, pairs, pairs[k]);
    }
    var places := PlacesOf(at, pairs);
    forall p | p in places
      ensures NearPlaces(rows, normalize, p)
    {
      var k :| 0 <= k < |places| && places[k] == p;
      PairAtPlace(rows, normalize, at, pairs, pairs[k]);
    }
    forall p | NearPlaces(rows, normalize, p)
      ensures p in places
    {
      var q := PlaceAtPair(rows, normalize, at, pairs, p);
      var n :| 0 <= n < |pairs| && pairs[n] == q;
      assert places[n] == p;
    }
  }

  lemma PlacesAreOrdered(at: seq<nat>, pairs: seq<Pair>)
    requires forall k, l :: 0 <= k < l < |at| ==> at[k] < at[l]
    requires forall k :: 0 <= k < |pairs| ==> pairs[k].first < |at| && pairs[k].second < |at|
    requires Ordered(pairs)
    ensures Ordered(PlacesOf(at, pairs))
  {
    forall k, l | 0 <= k < l < |pairs|
      ensures Lexicographic(PlacesOf(at, pairs)[k], PlacesOf(at, pairs)[l])
    {
      assert Lexicographic(pairs[k], pairs[l]);
    }
  }

  /** The near pairs of the scanned citizens are the near places of the table. */
  lemma NearPairsAreNearPlaces(rows: seq<Citizen>, normalize: string -> string) returns (places: seq<Pair>)
    ensures ListsNearPlaces(rows, normalize, places)
    ensures var all := NonRevoked(rows);
            var handles := Handles(all, normalize);
            |places| == |NearPairs(handles)|
            && forall signals :: Reports(all, handles, NearPairs(handles), signals) ==> SignalsFor(rows, normalize, places, signals)
  {
    var all := NonRevoked(rows);
    var handles := Handles(all, normalize);
    var pairs := NearPairs(handles);
    var at := NonRevokedStand(rows);
    NearPairsExact(handles);
    PairsAtPlaces(rows, normalize, at, pairs);
    places := PlacesOf(at, pairs);
    PlacesAreOrdered(at, pairs);
    assert forall k, l :: 0 <= k < l < |places| ==> Lexicographic(places[k], places[l]);
  }

  /** What a scan answers, in terms of the rows alone. */
  ghost predicate ScanAnswers(rows: seq<Citizen>, normalize: string -> string, r: Result<seq<Signal>, ScanError>) {
    if |Places(rows)| > 500 then r == Err(PopulationTooLarge)
    else if exists i :: 0 <= i < |rows| && !rows[i].revoked && |rows[i].publicHandle| > 64 then r == Err(OversizedHandle)
    else exists places :: ListsNearPlaces(rows, normalize, places)
           && if |places| > 1000 then r == Err(TooManySignals) else r.Ok? && SignalsFor(rows, normalize, places, r.value)
  }

  lemma OversizedInRows(rows: seq<Citizen>)
    ensures (exists c :: c in NonRevoked(rows) && |c.publicHandle| > MAX_HANDLE) <==>
            exists i :: 0 <= i < |rows| && !rows[i].revoked && |rows[i].publicHandle| > 64
  {
    var at := NonRevokedStand(rows);
    if c :| c in NonRevoked(rows) && |c.publicHandle| > MAX_HANDLE {
      var k :| 0 <= k < |at| && NonRevoked(rows)[k] == c;
      assert at[k] in at;
    }
    if i :| 0 <= i < |rows| && !rows[i].revoked && |rows[i].publicHandle| > 64 {
      assert i in at;
      var k :| 0 <= k < |at| && at[k] == i;
      assert NonRevoked(rows)[k] in NonRevoked(rows);
    }
  }

  /**
   The scan reports exactly the near pairs of citizens that are not revoked, once each and in order, or
   refuses: on more than 500 of them, on a handle longer than 64, or when there are more than 1000 near pairs.
   */
  method Scan(rows: seq<Citizen>, normalize: string -> string) returns (r: Result<seq<Signal>, ScanError>)
    ensures ScanAnswers(rows, normalize, r)
  {
    AsManyAsPlaces(rows);
    OversizedInRows(rows);
    var citizens := Take(NonRevoked(rows), MAX_POPULATION + 1);
    if |citizens| > MAX_POPULATION {
      return Err(PopulationTooLarge);
    }
    if exists c :: c in citizens && |c.publicHandle| > MAX_HANDLE {
      return Err(OversizedHandle);
    }
    ghost var places := NearPairsAreNearPlaces(rows, normalize);
    r := CompareAll(citizens, Handles(citizens, normalize));
    assert ListsNearPlaces(rows, normalize, places);
  }
}
