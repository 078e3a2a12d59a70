/** The idle timers: the intrusive circular list of src/list.h and its use in src/server.cpp. */
module IdleList {

  const K_IDLE_TIMEOUT_MS: nat := 5 * 1000

  /** A `DList` with the fields of the `Conn` around it. The list head is in no connection. */
  class Node {
    var prev: Node?
    var next: Node?
    const fd: int
    var idle_start: nat

    constructor (fd: int, now: nat)
      ensures this.fd == fd && idle_start == now
    {
      this.fd, idle_start, prev, next := fd, now, null, null;
    }
  }

  ghost predicate NoDup(s: seq<Node>) {
    forall i, j :: 0 <= i < j < |s| ==> s[i] != s[j]
  }

  ghost function Elems(s: seq<Node>): set<Node> {
    set n | n in s
  }

  /** The element at a position counted around the ring. */
  ghost function At(ring: seq<Node>, i: int): Node
    requires ring != [] && -1 <= i <= |ring|
  {
    if i == -1 then ring[|ring| - 1] else if i == |ring| then ring[0] else ring[i]
  }

  /** `ring`, head first, is linked both ways around. */
  ghost predicate Ring(ring: seq<Node>)
    reads Elems(ring)
  {
    && ring != [] && NoDup(ring)
    && (forall i {:trigger ring[i].next} :: 0 <= i < |ring| ==> ring[i].next == At(ring, i + 1))
    && (forall i {:trigger ring[i].prev} :: 0 <= i < |ring| ==> ring[i].prev == At(ring, i - 1))
  }

  ghost function Drop(ring: seq<Node>, k: nat): seq<Node>
    requires k < |ring|
  {
    ring[..k] + ring[k + 1..]
  }

  /** dlist_init */
  method Init(node: Node)
    modifies node`prev, node`next
    ensures Ring([node])
  {
    node.prev, node.next := node, node;
  }

  /** dlist_detach of a node that is not the head */
  method Detach(node: Node, ghost ring: seq<Node>, ghost k: nat)
    requires Ring(ring) && 0 < k < |ring| && ring[k] == node
    modifies Elems(ring)`next, Elems(ring)`prev
    ensures Ring(Drop(ring, k))
  {
    ghost var rest := Drop(ring, k);
    DropNoDup(ring, k);
    assert ring[k].next == At(ring, k + 1) && ring[k].prev == At(ring, k - 1);
    assert At(ring, k + 1) in ring && At(ring, k - 1) in ring;
    var prev, next := node.prev, node.next;
    prev.next := next;
    next.prev := prev;
    forall i | 0 <= i < |rest| ensures rest[i].next == At(rest, i + 1) {
      DropAt(ring, k, i);
      assert old(rest[i].next) == At(ring, (if i < k then i else i + 1) + 1);
    }
    forall i | 0 <= i < |rest| ensures rest[i].prev == At(rest, i - 1) {
      DropAt(ring, k, i);
      assert old(rest[i].prev) == At(ring, (if i < k then i else i + 1) - 1);
    }
  }

  /** The neighbours around the ring after position `k` is dropped. */
  lemma DropAt(ring: seq<Node>, k: nat, i: nat)
    requires NoDup(ring) && 0 < k < |ring| && i < |ring| - 1
    ensures var rest, j := Drop(ring, k), if i < k then i else i + 1;
      && rest[i] == ring[j]
      && At(rest, i + 1) == (if ring[j] == At(ring, k - 1) then At(ring, k + 1) else At(ring, j + 1))
      && At(rest, i - 1) == (if ring[j] == At(ring, k + 1) then At(ring, k - 1) else At(ring, j - 1))
  {
    var rest := Drop(ring, k);
    assert forall a :: 0 <= a < |rest| ==> rest[a] == ring[if a < k then a else a + 1];
  }

  lemma DropNoDup(ring: seq<Node>, k: nat)
    requires NoDup(ring) && k < |ring|
    ensures NoDup(Drop(ring, k)) && ring[k] !in Drop(ring, k)
    ensures Elems(Drop(ring, k)) == Elems(ring) - {ring[k]}
  {
    var rest := Drop(ring, k);
    assert forall i :: 0 <= i < |rest| ==> rest[i] == ring[if i < k then i else i + 1];
    forall n | n in ring && n != ring[k] ensures n in rest {
      var i :| 0 <= i < |ring| && ring[i] == n;
      assert rest[if i < k then i else i - 1] == n;
    }
  }

  /** dlist_insert_before the head: the node becomes the last */
  method InsertBefore(target: Node, node: Node, ghost ring: seq<Node>)
    requires Ring(ring) && target == ring[0] && node !in ring
    modifies Elems(ring)`next, Elems(ring)`prev, node`prev, node`next
    ensures Ring(ring + [node])
  {
    assert ring[0].prev == At(ring, -1) && At(ring, -1) in ring;
    var prev := target.prev;
    prev.next := node;
    node.prev := prev;
    node.next := target;
    target.prev := node;
  }

  /** Behind the head: nondecreasing idle_start, none later than `clock`. */
  ghost predicate Timed(ring: seq<Node>, clock: nat)
    reads Elems(ring)`idle_start
  {
    && (forall i, j :: 0 < i < j < |ring| ==> ring[i].idle_start <= ring[j].idle_start)
    && forall i :: 0 < i < |ring| ==> ring[i].idle_start <= clock
  }

  ghost function Fds(ring: seq<Node>): set<int> {
    set i | 0 < i < |ring| :: ring[i].fd
  }

  /** The table of connections holds exactly the nodes behind the head, each under its fd. */
  ghost predicate Tabled(table: map<int, Node>, ring: seq<Node>) {
    && table.Keys == Fds(ring)
    && (forall i :: 0 < i < |ring| ==> ring[i].fd in table && table[ring[i].fd] == ring[i])
  }

  /** The idle timer of `n` is due at `now_us`. */
  predicate Overdue(n: Node, now_us: nat)
    reads n`idle_start
  {
    n.idle_start + 5_000_000 < now_us
  }

  lemma TimedDrop(ring: seq<Node>, clock: nat, k: nat)
    requires Timed(ring, clock) && 0 < k < |ring|
    ensures Timed(Drop(ring, k), clock)
  {
    var rest := Drop(ring, k);
    assert forall i :: 0 <= i < |rest| ==> rest[i] == ring[if i < k then i else i + 1];
  }

  lemma TimedAppend(ring: seq<Node>, conn: Node, clock: nat, now: nat)
    requires ring != [] && Timed(ring, clock) && clock <= now && conn.idle_start == now
    ensures Timed(ring + [conn], now)
  {
  }

  lemma TabledAppend(table: map<int, Node>, ring: seq<Node>, conn: Node)
    requires ring != [] && Tabled(table, ring) && conn.fd !in table
    ensures Tabled(table[conn.fd := conn], ring + [conn])
  {
    var r := ring + [conn];
    assert r[|ring|] == conn && forall i :: 0 <= i < |ring| ==> r[i] == ring[i];
    forall fd | fd in Fds(ring) + {conn.fd} ensures fd in Fds(r) {
      if fd in Fds(ring) {
        var i :| 0 < i < |ring| && ring[i].fd == fd;
        assert r[i].fd == fd;
      }
    }
    assert Fds(r) == Fds(ring) + {conn.fd};
  }

  lemma TabledDrop(table: map<int, Node>, ring: seq<Node>, k: nat)
    requires Tabled(table, ring) && NoDup(ring) && 0 < k < |ring|
    ensures Tabled(table - {ring[k].fd}, Drop(ring, k))
  {
    var rest := Drop(ring, k);
    assert forall i :: 0 <= i < |rest| ==> rest[i] == ring[if i < k then i else i + 1];
    forall fd | fd in Fds(ring) && fd != ring[k].fd ensures fd in Fds(rest) {
      var i :| 0 < i < |ring| && ring[i].fd == fd;
      assert rest[if i < k then i else i - 1].fd == fd;
    }
    forall fd | fd in Fds(rest) ensures fd in Fds(ring) && fd != ring[k].fd {
      var i :| 0 < i < |rest| && rest[i].fd == fd;
      var j := if i < k then i else i + 1;
      assert ring[j] == rest[i] && table[ring[j].fd] == ring[j] && table[ring[k].fd] == ring[k];
    }
    assert Fds(rest) == Fds(ring) - {ring[k].fd};
  }

  lemma TabledMove(table: map<int, Node>, ring: seq<Node>, k: nat)
    requires Tabled(table, ring) && NoDup(ring) && 0 < k < |ring|
    ensures Tabled(table, Drop(ring, k) + [ring[k]])
  {
    TabledDrop(table, ring, k);
    DropNoDup(ring, k);
    TabledAppend(table - {ring[k].fd}, Drop(ring, k), ring[k]);
    assert (table - {ring[k].fd})[ring[k].fd := ring[k]] == table;
  }

  /** dlist_detach and dlist_insert_before the head, in a row. */
  method MoveToEnd(head: Node, conn: Node, ghost ring: seq<Node>, ghost k: nat)
    requires Ring(ring) && 0 < k < |ring| && ring[0] == head && ring[k] == conn
    modifies Elems(ring)`prev, Elems(ring)`next
    ensures Ring(Drop(ring, k) + [conn])
  {
    DropNoDup(ring, k);
    Detach(conn, ring, k);
    InsertBefore(head, conn, Drop(ring, k));
  }

  class Conns {
    const head: Node
    var fd2conn: map<int, Node>
    /** The list head and then the live connections, in list order. */
    ghost var ring: seq<Node>
    /** The latest reading of the clock. */
    ghost var clock: nat

    ghost predicate Valid()
      reads this, Elems(ring)
    {
      ring != [] && ring[0] == head && forall r <- {ring} :: Ring(r) && Timed(r, clock) && Tabled(fd2conn, r)
    }

    /** dlist_init(&g_data.idle_list) */
    constructor (now: nat)
      ensures Valid() && ring == [head] && fresh(head) && clock == now
    {
      head := new Node(-1, now);
      fd2conn, clock := map[], now;
      new;
      ring := [head];
      Init(head);
    }

    /** The bookkeeping after the list and the table have changed. */
    method Settle(table: map<int, Node>, ghost r: seq<Node>, ghost now: nat)
      requires r != [] && r[0] == head && Ring(r) && Timed(r, now) && Tabled(table, r)
      modifies this`fd2conn, this`ring, this`clock
      ensures Valid() && ring == r && clock == now && fd2conn == table
    {
      fd2conn, ring, clock := table, r, now;
    }

    /** accept_new_conn: a new connection starts at the end of the list. */
    method Accept(fd: int, now: nat) returns (conn: Node)
      requires Valid() && fd !in fd2conn && clock <= now
      modifies this`fd2conn, this`ring, this`clock, Elems(ring)`prev, Elems(ring)`next
      ensures Valid() && ring == old(ring) + [conn] && clock == now
      ensures fresh(conn) && conn.fd == fd && conn.idle_start == now
    {
      ghost var r := ring;
      assert Ring(r) && Timed(r, clock) && Tabled(fd2conn, r);
      conn := new Node(fd, now);
      assert conn !in Elems(r);
      InsertBefore(head, conn, r);
      TimedAppend(r, conn, clock, now);
      TabledAppend(fd2conn, r, conn);
      Settle(fd2conn[fd := conn], r + [conn], now);
    }

    /** connection_io, the timer part: the connection moves to the end of the list. */
    method Touch(conn: Node, now: nat, ghost k: nat)
      requires Valid() && 0 < k < |ring| && ring[k] == conn && clock <= now
      modifies this`fd2conn, this`ring, this`clock, Elems(ring)`prev, Elems(ring)`next, conn`idle_start
      ensures Valid() && ring == Drop(old(ring), k) + [conn] && clock == now && conn.idle_start == now
      ensures fd2conn == old(fd2conn)
    {
      ghost var r := ring;
      assert Ring(r) && Timed(r, clock) && Tabled(fd2conn, r);
      TimedDrop(r, clock, k);
      DropNoDup(r, k);
      TabledMove(fd2conn, r, k);
      conn.idle_start := now;
      assert Timed(Drop(r, k), clock);
      TimedAppend(Drop(r, k), conn, clock, now);
      MoveToEnd(head, conn, r, k);
      Settle(fd2conn, Drop(r, k) + [conn], now);
    }

    /** conn_done: the connection leaves the table and the list. */
    method Done(conn: Node, ghost k: nat)
      requires Valid() && 0 < k < |ring| && ring[k] == conn
      modifies this`fd2conn, this`ring, this`clock, Elems(ring)`prev, Elems(ring)`next
      ensures Valid() && ring == Drop(old(ring), k) && clock == old(clock)
    {
      ghost var r := ring;
      assert Ring(r) && Timed(r, clock) && Tabled(fd2conn, r);
      TimedDrop(r, clock, k);
      TabledDrop(fd2conn, r, k);
      Detach(conn, r, k);
      Settle(fd2conn - {conn.fd}, Drop(r, k), clock);
    }
  
    /** The first connection of the list, if it is not empty. */
    method First() returns (next: Node?)
      requires Valid()
      ensures next == if |ring| == 1 then null else ring[1]
      ensures Valid() == old(Valid())
    {
      assert Ring(ring) && ring[0].next == At(ring, 1);
      next := if head == head.next then null else head.next;
    }

    /** One turn of the idle loop of process_timers: the first connection, if it is overdue. */
    method CloseFirst(now_us: nat) returns (next: Node?)
      requires Valid()
      modifies this`fd2conn, this`ring, this`clock, Elems(ring)`prev, Elems(ring)`next
      ensures Valid() && clock == old(clock)
      ensures if |old(ring)| > 1 && old(Overdue(ring[1], now_us)) then
                next == old(ring)[1] && ring == Drop(old(ring), 1)
              else next == null && ring == old(ring)
    {
      next := First();
      if next != null {
        if next.idle_start + K_IDLE_TIMEOUT_MS * 1000 >= now_us {
          return null;
        }
        Done(next, 1);
      }
    }

    /** The idle loop of process_timers: the first connections, as long as they are overdue. */
    method CloseWhileDue(now_us: nat, ghost r0: seq<Node>) returns (closed: seq<Node>)
      requires Valid() && ring == r0
      modifies this`fd2conn, this`ring, this`clock, Elems(r0)`prev, Elems(r0)`next
      ensures Valid() && Closed(r0, ring, closed)
      ensures (forall n <- closed :: Overdue(n, now_us)) && (|ring| > 1 ==> !Overdue(ring[1], now_us))
    {
      closed := [];
      var next: Node?;
      while true
        invariant Valid() && Closed(r0, ring, closed) && Elems(ring) <= Elems(r0)
        invariant forall n <- closed :: Overdue(n, now_us)
        decreases |ring|
      {
        ghost var r := ring;
        next := CloseFirst(now_us);
        if next == null {
          return;
        }
        CloseOne(r0, r, closed);
        closed := closed + [next];
      }
    }

    /** The idle part of process_timers: exactly the overdue connections are closed, they are
        the first ones of the list, and the others stay in order. */
    method ProcessIdle(now_us: nat) returns (closed: seq<Node>)
      requires Valid()
      modifies this`fd2conn, this`ring, this`clock, Elems(ring)`prev, Elems(ring)`next
      ensures Valid() && Closed(old(ring), ring, closed)
      ensures forall i :: 0 < i < |old(ring)| ==> (i <= |closed| <==> Overdue(old(ring)[i], now_us))
    {
      ghost var r0, now := ring, clock;
      assert Timed(r0, now);
      closed := CloseWhileDue(now_us, r0);
      ExactlyDue(r0, ring, closed, now, now_us);
    }
  }

  /** `closed` are the first nodes behind the head of `r0`, and `ring` is what is left. */
  ghost predicate Closed(r0: seq<Node>, ring: seq<Node>, closed: seq<Node>) {
    && |closed| < |r0| && |ring| == |r0| - |closed|
    && (forall i :: 0 <= i < |closed| ==> closed[i] == r0[i + 1])
    && (|ring| > 1 ==> ring[1] == r0[|closed| + 1])
    && (forall i :: 0 < i < |ring| ==> ring[i] == r0[i + |closed|])
  }

  lemma CloseOne(r0: seq<Node>, r: seq<Node>, closed: seq<Node>)
    requires Closed(r0, r, closed) && |r| > 1
    ensures Closed(r0, Drop(r, 1), closed + [r[1]]) && r[1] == r0[|closed| + 1]
    ensures Elems(Drop(r, 1)) <= Elems(r)
  {
    var rest := Drop(r, 1);
    assert forall i :: 0 < i < |rest| ==> rest[i] == r[i + 1];
  }

  /** The list is in order of time, so where the closing stops nothing later is due. */
  lemma ExactlyDue(r0: seq<Node>, ring: seq<Node>, closed: seq<Node>, clock: nat, now_us: nat)
    requires Timed(r0, clock) && Closed(r0, ring, closed)
    requires (forall n <- closed :: Overdue(n, now_us)) && (|ring| > 1 ==> !Overdue(ring[1], now_us))
    ensures forall i :: 0 < i < |r0| ==> (i <= |closed| <==> Overdue(r0[i], now_us))
  {
    var c := |closed|;
    forall i | 0 < i < |r0| ensures i <= c <==> Overdue(r0[i], now_us) {
      if i <= c {
        assert closed[i - 1] == r0[i] && closed[i - 1] in closed;
      } else {
        assert r0[c + 1].idle_start <= r0[i].idle_start;
      }
    }
  }
}
