/** The tables of a hash map as values, and what the operations of src/hashtable.cpp:67-139 do to
    them with the migration loop as written. Whether a call returns is decided by these values. */
module Migration {
  import opened Keys
  import opened HashTable

  const K_RESIZING_WORK: nat := 128
  const K_MAX_LOAD_FACTOR: nat := 8

  /** The chains of a table, bucket by bucket. */
  type Rows<X> = seq<seq<X>>

  /** Both tables; no rows stand for a table that is not allocated. */
  datatype Tables<X> = Tables(to: Rows<X>, from: Rows<X>)

  function Bucket(rows: nat, code: nat): (b: nat)
    requires rows > 0
    ensures b < rows
  {
    AndBound(code, rows - 1);
    And(code, rows - 1)
  }

  /** h_insert */
  function Put<X>(rows: Rows<X>, x: X, code: X -> nat): (r: Rows<X>)
    ensures |r| == |rows|
  {
    if rows == [] then []
    else
      var b := Bucket(|rows|, code(x));
      rows[b := [x] + rows[b]]
  }

  /** A turn of the loop that moves a node: the first one of bucket 0. */
  function Move<X>(s: Tables<X>, code: X -> nat): (r: Tables<X>)
    ensures |r.to| == |s.to| && |r.from| == |s.from|
  {
    if s.from == [] || s.from[0] == [] then s
    else Tables(Put(s.to, s.from[0][0], code), s.from[0 := s.from[0][1..]])
  }

  function Moves<X>(s: Tables<X>, k: nat, code: X -> nat): (r: Tables<X>)
    ensures |r.to| == |s.to| && |r.from| == |s.from|
  {
    if k == 0 then s else Move(Moves(s, k - 1, code), code)
  }

  /** hm_help_resizing comes to an end: bucket 0 holds all that one call moves. */
  predicate Ends<X>(s: Tables<X>) {
    s.from == [] || |s.from[0]| >= Min(K_RESIZING_WORK, Total(s.from))
  }

  function Helped<X>(s: Tables<X>, code: X -> nat): (r: Tables<X>)
  {
    if s.from == [] then s
    else
      var t := Moves(s, Min(K_RESIZING_WORK, Total(s.from)), code);
      if Total(t.from) == 0 then Tables(t.to, []) else t
  }

  function Empty<X>(n: nat): (r: Rows<X>)
    ensures |r| == n
  {
    seq(n, _ => [])
  }

  /** hm_insert before its migration step: the first table, the node, and a bigger table. */
  function Placed<X>(s: Tables<X>, x: X, code: X -> nat): (r: Tables<X>)
  {
    Grown(Tables(Put(if s.to == [] then Empty(4) else s.to, x, code), s.from))
  }

  function Grown<X>(s: Tables<X>): (r: Tables<X>)
  {
    if s.from == [] && Total(s.to) >= K_MAX_LOAD_FACTOR * |s.to| then Tables(Empty(2 * |s.to|), s.to) else s
  }

  predicate InsertEnds<X>(s: Tables<X>, x: X, code: X -> nat)
  {
    Ends(Placed(s, x, code))
  }

  function Inserted<X>(s: Tables<X>, x: X, code: X -> nat): (r: Tables<X>)
  {
    Helped(Placed(s, x, code), code)
  }

  /** A chain without `x`. */
  function Dropped<X(==)>(chain: seq<X>, x: X): seq<X> {
    if chain == [] then [] else (if chain[0] == x then [] else [chain[0]]) + Dropped(chain[1..], x)
  }

  function RowsWithout<X(==)>(rows: Rows<X>, x: X): (r: Rows<X>)
    ensures |r| == |rows|
  {
    seq(|rows|, i requires 0 <= i < |rows| => Dropped(rows[i], x))
  }

  /** h_detach of `x`, wherever it is. */
  function Taken<X(==)>(s: Tables<X>, x: X): (r: Tables<X>)
  {
    Tables(RowsWithout(s.to, x), RowsWithout(s.from, x))
  }

  lemma {:induction false} DroppedAt<X>(s: seq<X>, k: nat)
    requires k < |s| && NoDup(s)
    ensures Dropped(s, s[k]) == s[..k] + s[k + 1..]
  {
    if k == 0 {
      DroppedNone(s[1..], s[0]);
      assert s[..0] + s[1..] == s[1..];
    } else {
      DroppedAt(s[1..], k - 1);
      assert [s[0]] + (s[1..][..k - 1] + s[1..][k..]) == s[..k] + s[k + 1..];
    }
  }

  lemma {:induction false} DroppedNone<X>(s: seq<X>, x: X)
    requires x !in s
    ensures Dropped(s, x) == s
  {
    if s != [] {
      DroppedNone(s[1..], x);
      assert s == [s[0]] + s[1..];
    }
  }

  lemma {:induction false} ChainWithinTotal<X>(ch: Rows<X>, i: nat)
    requires i < |ch|
    ensures |ch[i]| <= Total(ch)
    decreases ch
  {
    if i > 0 { ChainWithinTotal(ch[1..], i - 1); }
  }

  // ----- Whole migrations -----

  /** A call that removes nothing. */
  datatype Call<X> = Lookup | Insert(x: X)

  /** The tables after some calls, or none if one of the calls does not return. */
  ghost function AfterCalls<X>(s: Tables<X>, calls: seq<Call<X>>, code: X -> nat): (r: Option<Tables<X>>)
    decreases |calls|
  {
    if calls == [] then Some(s)
    else
      var t := if calls[0].Lookup? then s else Placed(s, calls[0].x, code);
      if Ends(t) then AfterCalls(Helped(t, code), calls[1..], code) else None
  }

  ghost function Lookups<X>(n: nat): (calls: seq<Call<X>>)
    ensures |calls| == n
  {
    seq(n, _ => Lookup)
  }

  /** Some number of lookups brings the migration to its end. */
  ghost predicate Completes<X>(s: Tables<X>, code: X -> nat)
  {
    exists n: nat :: var r := AfterCalls(s, Lookups(n), code); r.Some? && r.value.from == []
  }

  /** How many calls it takes to migrate `n` nodes. */
  function Rounds(n: nat): nat {
    if n <= K_RESIZING_WORK then 1 else 1 + Rounds(n - K_RESIZING_WORK)
  }

  lemma {:induction false} MovesCount<X>(s: Tables<X>, k: nat, code: X -> nat)
    requires s.from != [] && k <= |s.from[0]|
    ensures var t := Moves(s, k, code); |t.from[0]| == |s.from[0]| - k && Total(t.from) == Total(s.from) - k
  {
    if k > 0 {
      MovesCount(s, k - 1, code);
      var t := Moves(s, k - 1, code);
      TotalUpdate(t.from, 0, t.from[0][1..]);
    }
  }

  /** One call during a migration, whether a lookup or an insertion. */
  lemma OneCall<X>(s: Tables<X>, call: Call<X>, code: X -> nat)
    requires s.from != []
    ensures var t := if call.Lookup? then s else Placed(s, call.x, code);
            var k := Min(K_RESIZING_WORK, Total(s.from));
            && t.from == s.from && (Ends(t) <==> |s.from[0]| >= k)
            && (Ends(t) ==>
                  var r := Helped(t, code);
                  if Total(s.from) <= K_RESIZING_WORK then r.from == []
                  else r.from != [] && |r.from[0]| == |s.from[0]| - k && Total(r.from) == Total(s.from) - k)
  {
    var t := if call.Lookup? then s else Placed(s, call.x, code);
    var k := Min(K_RESIZING_WORK, Total(s.from));
    if |s.from[0]| >= k { MovesCount(t, k, code); }
  }

  /** With all nodes in bucket 0 any calls complete the migration, in as many as it takes. */
  lemma {:induction false} AllInFirstCompletes<X>(s: Tables<X>, calls: seq<Call<X>>, code: X -> nat)
    requires s.from != [] && |s.from[0]| == Total(s.from) && |calls| == Rounds(Total(s.from))
    ensures var r := AfterCalls(s, calls, code); r.Some? && r.value.from == []
    decreases |calls|
  {
    OneCall(s, calls[0], code);
    var t := if calls[0].Lookup? then s else Placed(s, calls[0].x, code);
    if Total(s.from) > K_RESIZING_WORK {
      AllInFirstCompletes(Helped(t, code), calls[1..], code);
    }
  }

  /** With a node elsewhere no calls do. */
  lemma {:induction false} OthersNeverComplete<X>(s: Tables<X>, calls: seq<Call<X>>, code: X -> nat)
    requires s.from != [] && |s.from[0]| < Total(s.from)
    ensures var r := AfterCalls(s, calls, code);
            r.Some? ==> r.value.from != [] && |calls| * K_RESIZING_WORK < Total(s.from)
    decreases |calls|
  {
    if calls != [] {
      OneCall(s, calls[0], code);
      var t := if calls[0].Lookup? then s else Placed(s, calls[0].x, code);
      if Ends(t) {
        OthersNeverComplete(Helped(t, code), calls[1..], code);
      }
    }
  }

  /** A migration in which nothing is removed runs to completion if and only if every node of the
      old table is in bucket 0; otherwise some call before long does not return. */
  lemma CompletesIff<X>(s: Tables<X>, code: X -> nat)
    requires s.from != []
    ensures Completes(s, code) <==> |s.from[0]| == Total(s.from)
  {
    ChainWithinTotal(s.from, 0);
    if |s.from[0]| == Total(s.from) {
      AllInFirstCompletes(s, Lookups(Rounds(Total(s.from))), code);
    } else {
      forall n: nat ensures var r := AfterCalls(s, Lookups(n), code); r.Some? ==> r.value.from != [] {
        OthersNeverComplete(s, Lookups(n), code);
      }
    }
  }

  // ----- The same tables under other names -----

  ghost function Renamed<X, Y>(rows: Rows<X>, f: X -> Y): (r: Rows<Y>)
    ensures |r| == |rows|
  {
    seq(|rows|, i requires 0 <= i < |rows| => Image(rows[i], f))
  }

  ghost function Image<X, Y>(chain: seq<X>, f: X -> Y): (r: seq<Y>)
    ensures |r| == |chain|
  {
    seq(|chain|, j requires 0 <= j < |chain| => f(chain[j]))
  }

  ghost function Rename<X, Y>(s: Tables<X>, f: X -> Y): (r: Tables<Y>)
  {
    Tables(Renamed(s.to, f), Renamed(s.from, f))
  }

  /** What a row holds and what its name holds have the same hash code. */
  ghost predicate Agree<X, Y>(rows: Rows<X>, f: X -> Y, code: X -> nat, named: Y -> nat) {
    forall i, j :: 0 <= i < |rows| && 0 <= j < |rows[i]| ==> named(f(rows[i][j])) == code(rows[i][j])
  }

  lemma {:induction false} RenamedTotal<X, Y>(rows: Rows<X>, f: X -> Y)
    ensures Total(Renamed(rows, f)) == Total(rows)
  {
    if rows != [] {
      RenamedTotal(rows[1..], f);
      assert Renamed(rows, f)[1..] == Renamed(rows[1..], f);
    }
  }

  lemma RenamedPut<X, Y>(rows: Rows<X>, x: X, f: X -> Y, code: X -> nat, named: Y -> nat)
    requires named(f(x)) == code(x)
    ensures Renamed(Put(rows, x, code), f) == Put(Renamed(rows, f), f(x), named)
  {
    if rows == [] { return; }
    var b := Bucket(|rows|, code(x));
    assert Image([x] + rows[b], f) == [f(x)] + Image(rows[b], f);
    assert forall i :: 0 <= i < |rows| && i != b ==> Renamed(Put(rows, x, code), f)[i] == Image(rows[i], f);
  }

  lemma RenamedMove<X, Y>(s: Tables<X>, f: X -> Y, code: X -> nat, named: Y -> nat)
    requires Agree(s.from, f, code, named)
    ensures Rename(Move(s, code), f) == Move(Rename(s, f), named)
    ensures Agree(Move(s, code).from, f, code, named)
  {
    if s.from != [] && s.from[0] != [] {
      RenamedPut(s.to, s.from[0][0], f, code, named);
      var rest := s.from[0 := s.from[0][1..]];
      assert Image(s.from[0][1..], f) == Image(s.from[0], f)[1..];
      assert Renamed(rest, f) == Renamed(s.from, f)[0 := Image(s.from[0], f)[1..]];
    }
  }

  lemma {:induction false} RenamedMoves<X, Y>(s: Tables<X>, k: nat, f: X -> Y, code: X -> nat, named: Y -> nat)
    requires Agree(s.from, f, code, named)
    ensures Rename(Moves(s, k, code), f) == Moves(Rename(s, f), k, named)
    ensures Agree(Moves(s, k, code).from, f, code, named)
  {
    if k > 0 {
      RenamedMoves(s, k - 1, f, code, named);
      RenamedMove(Moves(s, k - 1, code), f, code, named);
    }
  }

  lemma RenamedHelped<X, Y>(s: Tables<X>, f: X -> Y, code: X -> nat, named: Y -> nat)
    requires Agree(s.from, f, code, named)
    ensures Rename(Helped(s, code), f) == Helped(Rename(s, f), named)
    ensures Ends(Rename(s, f)) <==> Ends(s)
  {
    var k := Min(K_RESIZING_WORK, Total(s.from));
    RenamedMoves(s, k, f, code, named);
    RenamedTotal(s.from, f);
    RenamedTotal(Moves(s, k, code).from, f);
    assert Renamed<X, Y>([], f) == [];
  }

  lemma RenamedPlaced<X, Y>(s: Tables<X>, x: X, f: X -> Y, code: X -> nat, named: Y -> nat)
    requires named(f(x)) == code(x) && Agree(s.to, f, code, named) && Agree(s.from, f, code, named)
    ensures Rename(Placed(s, x, code), f) == Placed(Rename(s, f), f(x), named)
    ensures Agree(Placed(s, x, code).from, f, code, named)
  {
    var rows := if s.to == [] then Empty<X>(4) else s.to;
    assert Renamed(Empty<X>(4), f) == Empty<Y>(4);
    RenamedPut(rows, x, f, code, named);
    var full := Put(rows, x, code);
    assert Agree(full, f, code, named);
    RenamedTotal(full, f);
    assert Renamed(Empty<X>(2 * |full|), f) == Empty<Y>(2 * |full|);
  }

  lemma RenamedInserted<X, Y>(s: Tables<X>, x: X, f: X -> Y, code: X -> nat, named: Y -> nat)
    requires named(f(x)) == code(x) && Agree(s.to, f, code, named) && Agree(s.from, f, code, named)
    ensures Rename(Inserted(s, x, code), f) == Inserted(Rename(s, f), f(x), named)
    ensures InsertEnds(Rename(s, f), f(x), named) <==> InsertEnds(s, x, code)
  {
    RenamedPlaced(s, x, f, code, named);
    RenamedHelped(Placed(s, x, code), f, code, named);
  }

  lemma {:induction false} ImageDropped<X, Y>(chain: seq<X>, x: X, f: X -> Y)
    requires forall y <- chain :: f(y) == f(x) ==> y == x
    ensures Image(Dropped(chain, x), f) == Dropped(Image(chain, f), f(x))
  {
    if chain != [] {
      ImageDropped(chain[1..], x, f);
      assert Image(chain, f)[1..] == Image(chain[1..], f);
      assert Image([chain[0]] + Dropped(chain[1..], x), f) == [f(chain[0])] + Image(Dropped(chain[1..], x), f);
    }
  }

  /** Nothing else in the rows has the name of `x`. */
  ghost predicate OnlyName<X, Y>(rows: Rows<X>, x: X, f: X -> Y) {
    forall i, j :: 0 <= i < |rows| && 0 <= j < |rows[i]| && f(rows[i][j]) == f(x) ==> rows[i][j] == x
  }

  lemma RenamedTaken<X, Y>(s: Tables<X>, x: X, f: X -> Y)
    requires OnlyName(s.to, x, f) && OnlyName(s.from, x, f)
    ensures Rename(Taken(s, x), f) == Taken(Rename(s, f), f(x))
  {
    forall i | 0 <= i < |s.to| ensures Image(Dropped(s.to[i], x), f) == Dropped(Image(s.to[i], f), f(x)) {
      ImageDropped(s.to[i], x, f);
    }
    forall i | 0 <= i < |s.from| ensures Image(Dropped(s.from[i], x), f) == Dropped(Image(s.from[i], f), f(x)) {
      ImageDropped(s.from[i], x, f);
    }
    assert Renamed(RowsWithout(s.to, x), f) == RowsWithout(Renamed(s.to, f), f(x));
    assert Renamed(RowsWithout(s.from, x), f) == RowsWithout(Renamed(s.from, f), f(x));
  }

  // ----- The first table, before any migration -----

  /** What row `i` of `n` holds is in `xs` and belongs there. */
  ghost predicate FiledRow<X>(chain: seq<X>, n: nat, i: nat, xs: set<X>, code: X -> nat)
    requires i < n
  {
    NoDup(chain) && forall y <- chain :: y in xs && Bucket(n, code(y)) == i
  }

  /** The rows hold each of `xs` once, in its bucket, and nothing else. */
  ghost predicate Filed<X>(rows: Rows<X>, xs: set<X>, code: X -> nat) {
    && (forall i :: 0 <= i < |rows| ==> FiledRow(rows[i], |rows|, i, xs, code))
    && (forall x <- xs :: rows != [] && x in rows[Bucket(|rows|, code(x))])
    && Total(rows) == |xs|
  }

  /** The tables of a map that holds `xs` and has never grown. */
  ghost predicate CalmAt<X>(s: Tables<X>, xs: set<X>, code: X -> nat) {
    s.from == [] && (s.to == [] || |s.to| == 4) && Filed(s.to, xs, code)
  }

  /** The same, folded. */
  ghost predicate Calm<X>(s: Tables<X>, xs: set<X>, code: X -> nat) {
    forall ys <- {xs} :: CalmAt(s, ys, code)
  }

  /** There is nothing to migrate. */
  lemma CalmHelped<X>(s: Tables<X>, xs: set<X>, code: X -> nat)
    requires Calm(s, xs, code)
    ensures Ends(s) && Helped(s, code) == s
  {
    assert CalmAt(s, xs, code);
  }

  lemma FiledEmpty<X>(code: X -> nat)
    ensures Filed(Empty<X>(4), {}, code) && Calm(Tables([], []), {}, code)
  {
    TotalEmpty(Empty<X>(4));
    assert CalmAt(Tables([], []), {}, code);
  }

  lemma FiledPut<X>(rows: Rows<X>, xs: set<X>, x: X, code: X -> nat)
    requires rows != [] && Filed(rows, xs, code) && x !in xs
    ensures Filed(Put(rows, x, code), xs + {x}, code)
  {
    var b, more := Bucket(|rows|, code(x)), Put(rows, x, code);
    TotalUpdate(rows, b, [x] + rows[b]);
    forall i | 0 <= i < |more| ensures FiledRow(more[i], |more|, i, xs + {x}, code) {
      FiledRowOn(rows[i], |rows|, i, xs, x, code);
    }
  }

  lemma FiledRowOn<X>(chain: seq<X>, n: nat, i: nat, xs: set<X>, x: X, code: X -> nat)
    requires i < n && FiledRow(chain, n, i, xs, code) && x !in xs
    ensures FiledRow(chain, n, i, xs + {x}, code)
    ensures Bucket(n, code(x)) == i ==> FiledRow([x] + chain, n, i, xs + {x}, code)
  {
  }

  lemma {:induction false} DroppedMembers<X>(chain: seq<X>, x: X, y: X)
    ensures y in Dropped(chain, x) <==> y in chain && y != x
  {
    if chain != [] {
      DroppedMembers(chain[1..], x, y);
      assert y in chain <==> y == chain[0] || y in chain[1..];
    }
  }

  lemma DroppedOnce<X>(chain: seq<X>, x: X)
    requires NoDup(chain) && x in chain
    ensures NoDup(Dropped(chain, x)) && |Dropped(chain, x)| == |chain| - 1
  {
    var k :| 0 <= k < |chain| && chain[k] == x;
    DroppedAt(chain, k);
  }

  /** Rows in which `x` is filed, without it. */
  lemma FiledWithout<X>(rows: Rows<X>, xs: set<X>, x: X, code: X -> nat)
    requires Filed(rows, xs, code) && x in xs
    ensures Filed(RowsWithout(rows, x), xs - {x}, code)
  {
    var b, less := Bucket(|rows|, code(x)), RowsWithout(rows, x);
    assert FiledRow(rows[b], |rows|, b, xs, code);
    DroppedOnce(rows[b], x);
    forall i | 0 <= i < |rows| && i != b ensures less[i] == rows[i] {
      assert FiledRow(rows[i], |rows|, i, xs, code);
      DroppedNone(rows[i], x);
    }
    assert less == rows[b := less[b]];
    TotalUpdate(rows, b, less[b]);
    forall i | 0 <= i < |less| ensures FiledRow(less[i], |less|, i, xs - {x}, code) {
      assert FiledRow(rows[i], |rows|, i, xs, code);
      forall y | y in less[i] ensures y in rows[i] && y != x { DroppedMembers(rows[i], x, y); }
    }
    forall y | y in xs - {x} ensures y in less[Bucket(|less|, code(y))] {
      DroppedMembers(rows[Bucket(|less|, code(y))], x, y);
    }
  }

  lemma CalmTaken<X>(s: Tables<X>, xs: set<X>, x: X, code: X -> nat)
    requires Calm(s, xs, code) && x in xs
    ensures Calm(Taken(s, x), xs - {x}, code)
  {
    assert CalmAt(s, xs, code);
    FiledWithout(s.to, xs, x, code);
    assert CalmAt(Taken(s, x), xs - {x}, code);
  }

  /** An insertion below the load limit of four buckets returns. */
  lemma CalmInserted<X>(s: Tables<X>, xs: set<X>, x: X, code: X -> nat)
    requires Calm(s, xs, code) && x !in xs && |xs| + 1 < 32
    ensures InsertEnds(s, x, code) && Calm(Inserted(s, x, code), xs + {x}, code)
  {
    assert CalmAt(s, xs, code);
    FiledEmpty(code);
    var rows := if s.to == [] then Empty<X>(4) else s.to;
    FiledPut(rows, xs, x, code);
    assert CalmAt(Inserted(s, x, code), xs + {x}, code);
  }

  lemma {:induction false} AllInFirstRow<X>(rows: Rows<X>)
    requires rows != []
    ensures |rows[0]| <= Total(rows)
    ensures |rows[0]| == Total(rows) <==> forall i :: 0 < i < |rows| ==> rows[i] == []
  {
    TotalEmpty(rows[1..]);
    assert forall i :: 0 < i < |rows| ==> rows[i] == rows[1..][i - 1];
    if forall i :: 0 < i < |rows| ==> rows[i] == [] {
      assert forall i :: 0 <= i < |rows[1..]| ==> rows[1..][i] == rows[i + 1];
    }
  }

  /** Rows hold everything in bucket 0 exactly when that is where everything belongs. */
  lemma FirstRowOnly<X>(rows: Rows<X>, xs: set<X>, code: X -> nat)
    requires rows != [] && Filed(rows, xs, code)
    ensures |rows[0]| == Total(rows) <==> forall x <- xs :: Bucket(|rows|, code(x)) == 0
  {
    AllInFirstRow(rows);
    forall i | 0 < i < |rows| && rows[i] != [] ensures rows[i][0] in xs && Bucket(|rows|, code(rows[i][0])) == i {
      assert FiledRow(rows[i], |rows|, i, xs, code);
    }
    if x :| x in xs && Bucket(|rows|, code(x)) != 0 {
      assert rows[Bucket(|rows|, code(x))] != [];
    }
  }

  /** The insertion that fills four buckets returns if and only if everything belongs into
      bucket 0. */
  lemma FullInserted<X>(s: Tables<X>, xs: set<X>, x: X, code: X -> nat)
    requires Calm(s, xs, code) && x !in xs && |xs| == 31
    ensures InsertEnds(s, x, code) <==> forall y <- xs + {x} :: code(y) % 4 == 0
  {
    assert CalmAt(s, xs, code) && |s.to| == 4;
    FiledPut(s.to, xs, x, code);
    var full := Put(s.to, x, code);
    assert Placed(s, x, code) == Tables(Empty(8), full);
    AllInFirstRow(full);
    FirstRowOnly(full, xs + {x}, code);
    forall y | y in xs + {x} ensures Bucket(4, code(y)) == code(y) % 4 { MaskIsRemainder(code(y), 4); }
  }
}
