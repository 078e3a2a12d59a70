/** struct HTable (src/hashtable.cpp:10-65): an array of intrusive singly linked chains. */
module HashTable {

  // ----- hcode & mask -----

  /** Bitwise and. */
  function And(a: nat, b: nat): nat
    decreases a + b
  {
    if a == 0 || b == 0 then 0
    else 2 * And(a / 2, b / 2) + if a % 2 == 1 && b % 2 == 1 then 1 else 0
  }

  lemma {:induction false} AndBound(a: nat, b: nat)
    ensures And(a, b) <= b
    decreases a + b
  {
    if a != 0 && b != 0 {
      AndBound(a / 2, b / 2);
    }
  }

  lemma {:induction false} AndSelf(a: nat)
    ensures And(a, a) == a
  {
    if a != 0 {
      AndSelf(a / 2);
    }
  }

  /** What h_init asserts of the number of buckets. */
  predicate PowerOfTwo(n: nat) {
    n > 0 && And(n - 1, n) == 0
  }

  lemma DoublePower(n: nat)
    requires PowerOfTwo(n)
    ensures PowerOfTwo(2 * n)
  {
    assert (2 * n - 1) / 2 == n - 1 && (2 * n) / 2 == n && (2 * n) % 2 == 0;
    assert And(2 * n - 1, 2 * n) == 2 * And(n - 1, n);
  }

  lemma OddIsNoPower(n: nat)
    requires n > 1 && n % 2 == 1
    ensures And(n - 1, n) > 0
  {
    AndSelf(n / 2);
    assert (n - 1) / 2 == n / 2 && (n - 1) % 2 == 0;
  }

  /** With the table sizes h_init accepts, masking picks the bucket `hcode mod size`. */
  lemma {:induction false} MaskIsRemainder(h: nat, n: nat)
    requires PowerOfTwo(n)
    ensures And(h, n - 1) == h % n
    decreases n
  {
    if n > 1 {
      var q := HalfPower(n);
      MaskIsRemainder(h / 2, q);
      HalfMask(h, q);
      HalvedRemainder(h, q);
    }
  }

  lemma HalfPower(n: nat) returns (q: nat)
    requires n > 1 && PowerOfTwo(n)
    ensures n == 2 * q && PowerOfTwo(q)
  {
    if n % 2 == 1 { OddIsNoPower(n); }
    q := n / 2;
    assert (n - 1) / 2 == q - 1 && (n - 1) % 2 == 1;
    assert And(n - 1, n) == 2 * And(q - 1, q);
  }

  lemma HalfMask(h: nat, q: nat)
    requires q > 0
    ensures And(h, 2 * q - 1) == 2 * And(h / 2, q - 1) + h % 2
  {
    var m := 2 * q - 1;
    assert m / 2 == q - 1 && m % 2 == 1;
  }

  lemma HalvedRemainder(h: nat, q: nat)
    requires q > 0
    ensures h % (2 * q) == 2 * ((h / 2) % q) + h % 2
  {
    var d, r := (h / 2) / q, (h / 2) % q;
    assert h / 2 == d * q + r;
    assert h == d * (2 * q) + (2 * r + h % 2);
    Remainder(h, 2 * q, d, 2 * r + h % 2);
  }

  lemma Remainder(h: int, n: int, d: int, r: int)
    requires 0 <= r < n && h == d * n + r
    ensures h % n == r
  {
    FarApart(h / n - d, n);
    assert (h / n - d) * n == r - h % n;
  }

  lemma FarApart(k: int, n: int)
    requires n > 0
    ensures k != 0 ==> k * n >= n || k * n <= -n
  {
    if k > 0 {
      assert k * n == (k - 1) * n + n && (k - 1) * n >= 0;
    } else if k < 0 {
      assert k * n == -((-k - 1) * n) - n && (-k - 1) * n >= 0;
    }
  }

  // ----- chains -----

  /** struct HNode, inside the object `item` (what container_of finds). */
  class HNode<T> {
    var next: HNode?<T>
    const hcode: nat
    const item: T

    constructor (hcode: nat, item: T)
      ensures this.hcode == hcode && this.item == item && next == null
    {
      this.hcode, this.item, next := hcode, item, null;
    }
  }

  type Chains<!T> = seq<seq<HNode<T>>>

  function Total<X>(ch: seq<seq<X>>): nat {
    if ch == [] then 0 else |ch[0]| + Total(ch[1..])
  }

  lemma {:induction false} TotalUpdate<X>(ch: seq<seq<X>>, i: nat, s: seq<X>)
    requires i < |ch|
    ensures Total(ch[i := s]) == Total(ch) - |ch[i]| + |s|
    decreases ch
  {
    if i == 0 {
      assert ch[0 := s][1..] == ch[1..];
    } else {
      assert ch[i := s][1..] == ch[1..][i - 1 := s];
      TotalUpdate(ch[1..], i - 1, s);
    }
  }

  lemma {:induction false} TotalEmpty<X>(ch: seq<seq<X>>)
    ensures Total(ch) == 0 <==> forall i :: 0 <= i < |ch| ==> ch[i] == []
  {
    if ch != [] {
      TotalEmpty(ch[1..]);
      assert forall i :: 1 <= i < |ch| ==> ch[i] == ch[1..][i - 1];
      if forall i :: 0 <= i < |ch| ==> ch[i] == [] {
        assert forall i :: 0 <= i < |ch[1..]| ==> ch[1..][i] == ch[i + 1];
      }
    }
  }

  ghost function NodesOf<T>(ch: Chains<T>): set<HNode<T>> {
    set i, n | 0 <= i < |ch| && n in ch[i] :: n
  }

  ghost predicate NoDup<X>(s: seq<X>) {
    forall j, k :: 0 <= j < k < |s| ==> s[j] != s[k]
  }

  ghost function At<T>(s: seq<HNode<T>>, k: nat): HNode?<T> {
    if k < |s| then s[k] else null
  }

  /** Chain `s` starts at `head` and is linked by `next`. */
  ghost predicate Linked<T>(head: HNode?<T>, s: seq<HNode<T>>)
    reads set n | n in s
  {
    && head == At(s, 0)
    && forall k {:trigger s[k].next} :: 0 <= k < |s| ==> s[k].next == At(s, k + 1)
  }

  /** Bucket `i` of a table with this mask. */
  ghost predicate InBucket<T>(s: seq<HNode<T>>, mask: nat, i: nat) {
    NoDup(s) && forall n <- s :: And(n.hcode, mask) == i
  }

  /** Every node is in the bucket its hash code and the mask select. */
  ghost predicate InPlace<T>(ch: Chains<T>, mask: nat) {
    forall i :: 0 <= i < |ch| ==> InBucket(ch[i], mask, i)
  }

  lemma PlacedElsewhere<T>(ch: Chains<T>, mask: nat, i: nat, n: HNode<T>)
    requires InPlace(ch, mask) && i < |ch| && And(n.hcode, mask) == i
    ensures forall j :: 0 <= j < |ch| && j != i ==> n !in ch[j]
  {
  }

  lemma PlacedUpdate<T>(ch: Chains<T>, mask: nat, i: nat, s: seq<HNode<T>>)
    requires InPlace(ch, mask) && i < |ch| && InBucket(s, mask, i)
    ensures InPlace(ch[i := s], mask)
  {
  }

  lemma InBucketPush<T>(s: seq<HNode<T>>, mask: nat, i: nat, n: HNode<T>)
    requires InBucket(s, mask, i) && n !in s && And(n.hcode, mask) == i
    ensures InBucket([n] + s, mask, i)
  {
  }

  lemma NodesPush<T>(ch: Chains<T>, i: nat, n: HNode<T>)
    requires i < |ch|
    ensures NodesOf(ch[i := [n] + ch[i]]) == NodesOf(ch) + {n}
  {
    var ck := ch[i := [n] + ch[i]];
    assert n in ck[i];
    forall x | x in NodesOf(ch) ensures x in NodesOf(ck) {
      var j :| 0 <= j < |ch| && x in ch[j];
      assert x in ck[j];
    }
  }

  ghost function Without<T>(s: seq<HNode<T>>, k: nat): seq<HNode<T>>
    requires k < |s|
  {
    s[..k] + s[k + 1..]
  }

  ghost predicate AllLinked<T>(table: array<HNode?<T>>, ch: Chains<T>)
    reads table, NodesOf(ch)
  {
    table.Length == |ch| && forall i :: 0 <= i < |ch| ==> Linked(table[i], ch[i])
  }

  /** The pointer writes of h_insert. */
  method Push<T>(table: array<HNode?<T>>, pos: nat, node: HNode<T>, ghost ch: Chains<T>)
    requires AllLinked(table, ch) && pos < |ch| && node !in NodesOf(ch)
    modifies table, node`next
    ensures AllLinked(table, ch[pos := [node] + ch[pos]])
  {
    ghost var ck := ch[pos := [node] + ch[pos]];
    var next := table[pos];
    node.next := next;
    table[pos] := node;
    forall i | 0 <= i < |ck| ensures Linked(table[i], ck[i]) {
      assert old(Linked(table[i], ch[i]));
      ChainNodes(ch, i);
    }
  }

  lemma ChainNodes<T>(ch: Chains<T>, i: nat)
    requires i < |ch|
    ensures forall k :: 0 <= k < |ch[i]| ==> ch[i][k] in NodesOf(ch)
  {
    forall k | 0 <= k < |ch[i]| ensures ch[i][k] in NodesOf(ch) {
      assert ch[i][k] in ch[i];
    }
  }

  /** The `HNode **` of h_lookup and h_detach: the link that points at a node. */
  datatype From<!T> = Nowhere | AtBucket(pos: nat) | AfterNode(prev: HNode<T>)

  /** Link `from` points at node `k` of bucket `pos`. */
  ghost predicate PointsAt<T>(from: From<T>, ch: Chains<T>, pos: nat, k: nat) {
    && pos < |ch| && k < |ch[pos]|
    && from == if k == 0 then AtBucket(pos) else AfterNode(ch[pos][k - 1])
  }

  /** The pointer writes of h_detach. */
  method Cut<T>(
      table: array<HNode?<T>>, from: From<T>, ghost ch: Chains<T>, ghost mask: nat, ghost pos: nat, ghost k: nat)
    returns (node: HNode<T>)
    requires AllLinked(table, ch) && InPlace(ch, mask) && PointsAt(from, ch, pos, k)
    modifies table, (if from.AfterNode? then {from.prev} else {})`next
    ensures AllLinked(table, ch[pos := Without(ch[pos], k)]) && node == ch[pos][k]
  {
    ghost var s := ch[pos];
    ghost var ck := ch[pos := Without(s, k)];
    assert Linked(table[pos], s) && s[k].next == At(s, k + 1);
    if from.AtBucket? {
      node := table[from.pos];
      table[from.pos] := node.next;
    } else {
      assert from.prev == s[k - 1] && s[k - 1] in s && s[k - 1].next == s[k];
      node := from.prev.next;
      from.prev.next := node.next;
    }
    forall i | 0 <= i < |ck| ensures Linked(table[i], ck[i]) {
      assert old(Linked(table[i], ch[i]));
      if i == pos {
        assert forall j :: 0 <= j < |ck[i]| ==> ck[i][j] == if j < k then s[j] else s[j + 1];
      } else if k > 0 {
        assert s[k - 1] in s && s[k - 1] !in ch[i];
      }
    }
  }

  lemma InBucketCut<T>(s: seq<HNode<T>>, mask: nat, i: nat, k: nat)
    requires InBucket(s, mask, i) && k < |s|
    ensures InBucket(Without(s, k), mask, i) && s[k] !in Without(s, k)
  {
    var w := Without(s, k);
    forall j | 0 <= j < |w| ensures w[j] == if j < k then s[j] else s[j + 1] {}
  }

  lemma NodesCut<T>(ch: Chains<T>, mask: nat, i: nat, k: nat)
    requires InPlace(ch, mask) && i < |ch| && k < |ch[i]|
    ensures NodesOf(ch[i := Without(ch[i], k)]) == NodesOf(ch) - {ch[i][k]}
  {
    var n, w := ch[i][k], Without(ch[i], k);
    var ck := ch[i := w];
    InBucketCut(ch[i], mask, i, k);
    assert n in ch[i];
    PlacedElsewhere(ch, mask, i, n);
    forall x | x in NodesOf(ch) && x != n ensures x in NodesOf(ck) {
      var j :| 0 <= j < |ch| && x in ch[j];
      if j == i {
        var a :| 0 <= a < |ch[i]| && ch[i][a] == x;
        assert w[if a < k then a else a - 1] == x;
      }
      assert x in ck[j];
    }
    forall x | x in NodesOf(ck) ensures x in NodesOf(ch) && x != n {
      var j :| 0 <= j < |ck| && x in ck[j];
      assert x in ch[j];
    }
  }

  /** All nodes, bucket by bucket. */
  ghost function Flat<T>(ch: Chains<T>): seq<HNode<T>> {
    if ch == [] then [] else ch[0] + Flat(ch[1..])
  }

  ghost function Elems<T>(s: seq<HNode<T>>): set<HNode<T>> {
    set n | n in s
  }

  lemma NodesHead<T>(ch: Chains<T>)
    requires ch != []
    ensures NodesOf(ch) == Elems(ch[0]) + NodesOf(ch[1..])
  {
    forall x | x in NodesOf(ch) ensures x in Elems(ch[0]) + NodesOf(ch[1..]) {
      var i :| 0 <= i < |ch| && x in ch[i];
      if i > 0 { assert x in ch[1..][i - 1]; }
    }
    forall x | x in Elems(ch[0]) + NodesOf(ch[1..]) ensures x in NodesOf(ch) {
      if x !in ch[0] {
        var i :| 0 <= i < |ch[1..]| && x in ch[1..][i];
        assert x in ch[i + 1];
      }
    }
  }

  lemma {:induction false} FlatFacts<T>(ch: Chains<T>)
    ensures |Flat(ch)| == Total(ch)
    ensures Elems(Flat(ch)) == NodesOf(ch)
  {
    if ch != [] {
      FlatFacts(ch[1..]);
      NodesHead(ch);
      assert Elems(ch[0] + Flat(ch[1..])) == Elems(ch[0]) + Elems(Flat(ch[1..]));
    }
  }

  ghost predicate PlacedFrom<T>(ch: Chains<T>, mask: nat, base: nat) {
    forall i :: 0 <= i < |ch| ==> InBucket(ch[i], mask, base + i)
  }

  /** A scan meets every node exactly once. */
  lemma {:induction false} FlatOnce<T>(ch: Chains<T>, mask: nat, base: nat)
    requires PlacedFrom(ch, mask, base)
    ensures NoDup(Flat(ch)) && forall n <- Flat(ch) :: And(n.hcode, mask) >= base
  {
    if ch != [] {
      var a, b := ch[0], Flat(ch[1..]);
      assert InBucket(ch[0], mask, base + 0);
      forall i | 0 <= i < |ch[1..]| ensures InBucket(ch[1..][i], mask, base + 1 + i) {
        assert ch[1..][i] == ch[i + 1] && InBucket(ch[i + 1], mask, base + (i + 1));
      }
      FlatOnce(ch[1..], mask, base + 1);
      forall j, k | 0 <= j < k < |a + b| ensures (a + b)[j] != (a + b)[k] {
        if j < |a| <= k {
          assert a[j] in a && b[k - |a|] in b;
        }
      }
    }
  }

  lemma {:induction false} FlatSnoc<T>(ch: Chains<T>, i: nat)
    requires i < |ch|
    ensures Flat(ch[..i + 1]) == Flat(ch[..i]) + ch[i]
  {
    if i == 0 {
      assert ch[..1] == [ch[0]];
    } else {
      assert ch[..i + 1][1..] == ch[1..][..i] && ch[..i][1..] == ch[1..][..i - 1];
      FlatSnoc(ch[1..], i - 1);
    }
  }

  class HTable<T> {
    var table: array?<HNode?<T>>
    var mask: nat
    var size: nat
    ghost var chains: Chains<T>

    ghost predicate Valid()
      reads this, table, NodesOf(chains)
    {
      if table == null then mask == 0 && size == 0 && chains == []
      else
        && table.Length == mask + 1 == |chains| && PowerOfTwo(mask + 1)
        && size == Total(chains)
        && InPlace(chains, mask)
        && AllLinked(table, chains)
    }

    ghost function Nodes(): set<HNode<T>>
      reads this
    {
      NodesOf(chains)
    }

    /** HTable{} */
    constructor Empty()
      ensures Valid() && table == null && chains == []
    {
      table, mask, size, chains := null, 0, 0, [];
    }

    /** h_init */
    constructor Init(n: nat)
      requires PowerOfTwo(n)
      ensures Valid() && table != null && fresh(table) && mask + 1 == n && size == 0
      ensures Nodes() == {} && chains == seq(n, _ => [])
    {
      table := new HNode?<T>[n](_ => null);
      mask := n - 1;
      size := 0;
      chains := seq(n, _ => []);
      new;
      TotalEmpty(chains);
    }

    /** h_insert */
    method Insert(node: HNode<T>)
      requires Valid() && table != null && node !in Nodes()
      modifies this`size, this`chains, table, node`next
      ensures Valid() && size == old(size) + 1
      ensures var pos := And(node.hcode, mask);
              pos < |old(chains)| && chains == old(chains)[pos := [node] + old(chains)[pos]]
      ensures Nodes() == old(Nodes()) + {node}
    {
      AndBound(node.hcode, mask);
      var pos := And(node.hcode, mask);
      PlacedElsewhere(chains, mask, pos, node);
      InBucketPush(chains[pos], mask, pos, node);
      PlacedUpdate(chains, mask, pos, [node] + chains[pos]);
      NodesPush(chains, pos, node);
      TotalUpdate(chains, pos, [node] + chains[pos]);
      ghost var ch := chains;
      size := size + 1;
      chains := ch[pos := [node] + ch[pos]];
      Push(table, pos, node, ch);
    }
  
    /** h_lookup: the first match in the bucket of `hcode`, as the link that points at it. */
    method Lookup(hcode: nat, cmp: HNode<T> -> bool) returns (from: From<T>, ghost pos: nat, ghost k: nat)
      requires Valid()
      ensures from != Nowhere ==> PointsAt(from, chains, pos, k) && cmp(chains[pos][k])
      ensures from == Nowhere ==> forall n <- Nodes() :: n.hcode == hcode ==> !cmp(n)
    {
      pos, k := And(hcode, mask), 0;
      if table == null {
        return Nowhere, pos, k;
      }
      AndBound(hcode, mask);
      var bucket := And(hcode, mask);
      from := AtBucket(bucket);
      var curr := table[bucket];
      assert Linked(table[bucket], chains[pos]);
      while curr != null
        invariant 0 <= k <= |chains[pos]|
        invariant curr == At(chains[pos], k)
        invariant k < |chains[pos]| ==> PointsAt(from, chains, pos, k)
        invariant forall j :: 0 <= j < k ==> !cmp(chains[pos][j])
        decreases |chains[pos]| - k
      {
        if cmp(curr) {
          return;
        }
        from := AfterNode(curr);
        curr := curr.next;
        k := k + 1;
      }
      from := Nowhere;
      forall n | n in Nodes() && n.hcode == hcode ensures !cmp(n) {
        var i :| 0 <= i < |chains| && n in chains[i];
        assert i == pos;
      }
    }

    /** The node that a link points at. */
    method Get(from: From<T>, ghost pos: nat, ghost k: nat) returns (node: HNode<T>)
      requires Valid() && PointsAt(from, chains, pos, k)
      ensures node == chains[pos][k] && node in Nodes()
    {
      assert Linked(table[pos], chains[pos]) && chains[pos][k] in chains[pos];
      if from.AtBucket? {
        node := table[from.pos];
      } else {
        assert chains[pos][k - 1].next == At(chains[pos], k);
        node := from.prev.next;
      }
    }

    /** h_detach */
    method Detach(from: From<T>, ghost pos: nat, ghost k: nat) returns (node: HNode<T>)
      requires Valid() && PointsAt(from, chains, pos, k)
      modifies this`size, this`chains, table, (if from.AfterNode? then {from.prev} else {})`next
      ensures Valid() && size == old(size) - 1
      ensures node == old(chains)[pos][k] && chains == old(chains)[pos := Without(old(chains)[pos], k)]
      ensures Nodes() == old(Nodes()) - {node} && node in old(Nodes())
    {
      InBucketCut(chains[pos], mask, pos, k);
      PlacedUpdate(chains, mask, pos, Without(chains[pos], k));
      NodesCut(chains, mask, pos, k);
      TotalUpdate(chains, pos, Without(chains[pos], k));
      assert chains[pos][k] in chains[pos];
      ghost var ch := chains;
      size := size - 1;
      chains := ch[pos := Without(ch[pos], k)];
      node := Cut(table, from, ch, mask, pos, k);
    }

    /** h_scan: the nodes in the order the callback sees them. */
    method Scan() returns (seen: seq<HNode<T>>)
      requires Valid()
      ensures seen == Flat(chains)
    {
      seen := [];
      FlatFacts(chains);
      if size == 0 {
        return;
      }
      for i := 0 to mask + 1
        invariant seen == Flat(chains[..i])
      {
        FlatSnoc(chains, i);
        var node := table[i];
        ghost var k := 0;
        assert Linked(table[i], chains[i]);
        while node != null
          invariant 0 <= k <= |chains[i]| && seen == Flat(chains[..i]) + chains[i][..k]
          invariant node == At(chains[i], k)
          decreases |chains[i]| - k
        {
          seen := seen + [node];
          assert Linked(table[i], chains[i]) && node == chains[i][k];
          node := node.next;
          k := k + 1;
        }
      }
      assert chains[..mask + 1] == chains;
    }
  }
}
