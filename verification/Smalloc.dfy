/** libs/src/libc/smalloc.c: a heap in one pool of memory.  Available and allocated blocks are kept in two
    lists by descending address; freeing coalesces neighbours. */
module Smalloc {
  const OVERHEAD := 12
  const MINNODE := 256
  const LIMIT := 0x8000_0000
  const MAXINT := 0x7FFF_FFFF

  /** A block header; it lives at the block's address. */
  datatype Node = Node(rsize: nat, usize: nat, next: int)

  type Memory = map<int, Node>

  // ----- address lists -----

  predicate Descending(s: seq<int>) {
    forall i, j :: 0 <= i < j < |s| ==> s[i] > s[j]
  }

  /** How many elements lie above `n`. */
  function Above(s: seq<int>, n: int): (k: nat)
    ensures k <= |s| && (forall i :: 0 <= i < k ==> s[i] > n) && (k < |s| ==> s[k] <= n)
  {
    if s == [] || s[0] <= n then 0 else 1 + Above(s[1..], n)
  }

  function Elem(s: seq<int>, i: nat): int {
    if i < |s| then s[i] else 0
  }

  /** The linked list from `head` on holds exactly the elements of `s`. */
  predicate IsList(nodes: Memory, head: int, s: seq<int>) {
    head == Elem(s, 0) &&
    forall i :: 0 <= i < |s| ==> s[i] != 0 && s[i] in nodes && nodes[s[i]].next == Elem(s, i + 1)
  }

  function Inserted(s: seq<int>, n: int): seq<int> {
    var k := Above(s, n);
    s[..k] + [n] + s[k..]
  }

  function Removed(s: seq<int>, n: int): seq<int> {
    var k := Above(s, n);
    if k < |s| then s[..k] + s[k + 1..] else s
  }

  lemma AboveIs(s: seq<int>, n: int, k: nat)
    requires k <= |s| && (forall i :: 0 <= i < k ==> s[i] > n) && (k < |s| ==> s[k] <= n)
    ensures Above(s, n) == k
  {
    var a := Above(s, n);
    hide Above;
  }

  lemma AboveMember(s: seq<int>, n: int)
    requires Descending(s)
    ensures n in s <==> Above(s, n) < |s| && s[Above(s, n)] == n
    ensures forall i :: Above(s, n) < i < |s| ==> s[i] < n
  {}

  lemma InsertedMeaning(s: seq<int>, n: int)
    requires Descending(s) && n !in s
    ensures Descending(Inserted(s, n)) && |Inserted(s, n)| == |s| + 1
    ensures forall x :: x in Inserted(s, n) <==> x in s || x == n
  {
    AboveMember(s, n);
    var k := Above(s, n);
    hide Above;
    Members(s, k);
  }

  lemma RemovedMeaning(s: seq<int>, n: int)
    requires Descending(s) && n in s
    ensures Descending(Removed(s, n)) && |Removed(s, n)| == |s| - 1
    ensures forall x :: x in Removed(s, n) <==> x in s && x != n
  {
    AboveMember(s, n);
    var k := Above(s, n);
    DroppedDescending(s, k);
    DroppedMembers(s, k);
    hide Above, Descending;
  }

  lemma DroppedDescending(s: seq<int>, k: nat)
    requires Descending(s) && k < |s|
    ensures Descending(s[..k] + s[k + 1..])
  {
    var t := s[..k] + s[k + 1..];
    forall i, j | 0 <= i < j < |t| ensures t[i] > t[j] {
      assert t[i] == s[if i < k then i else i + 1];
      assert t[j] == s[if j < k then j else j + 1];
    }
  }

  lemma DroppedMembers(s: seq<int>, k: nat)
    requires Descending(s) && k < |s|
    ensures forall x :: x in s[..k] + s[k + 1..] <==> x in s && x != s[k]
  {
    var t := s[..k] + s[k + 1..];
    forall x | x in t ensures x in s && x != s[k] {
      var i :| 0 <= i < |t| && t[i] == x;
      assert t[i] == s[if i < k then i else i + 1];
    }
    forall x | x in s && x != s[k] ensures x in t {
      var i :| 0 <= i < |s| && s[i] == x;
      assert s[i] == t[if i < k then i else i - 1];
    }
  }

  lemma Members(s: seq<int>, k: nat)
    requires k <= |s|
    ensures forall x :: x in s <==> x in s[..k] || x in s[k..]
  {
    assert s == s[..k] + s[k..];
  }

  /** Unlinking an element. */
  lemma UnlinkList(nodes: Memory, head: int, s: seq<int>, k: nat)
    requires IsList(nodes, head, s) && Descending(s) && k < |s|
    ensures var s' := s[..k] + s[k + 1..];
            if k == 0 then IsList(nodes, Elem(s, 1), s')
            else IsList(nodes[s[k - 1] := nodes[s[k - 1]].(next := Elem(s, k + 1))], head, s')
  {}

  /** Linking a new element in. */
  lemma LinkList(nodes: Memory, head: int, s: seq<int>, k: nat, n: int)
    requires IsList(nodes, head, s) && Descending(s) && k <= |s| && n !in s && n in nodes && n != 0
    ensures var s' := s[..k] + [n] + s[k..];
            var linked := nodes[n := nodes[n].(next := Elem(s, k))];
            if k == 0 then IsList(linked, n, s')
            else IsList(linked[s[k - 1] := linked[s[k - 1]].(next := n)], head, s')
  {
    var s' := s[..k] + [n] + s[k..];
    var linked := nodes[n := nodes[n].(next := Elem(s, k))];
    var final := if k == 0 then linked else linked[s[k - 1] := linked[s[k - 1]].(next := n)];
    forall i | 0 <= i < |s'| ensures s'[i] != 0 && s'[i] in final && final[s'[i]].next == Elem(s', i + 1) {
      if i < k {
        assert s'[i] == s[i];
      } else if i > k {
        assert s'[i] == s[i - 1] && Elem(s', i + 1) == Elem(s, i);
      }
    }
  }

  /** A list does not see changes to nodes outside it. */
  lemma FrameList(nodes: Memory, nodes': Memory, head: int, s: seq<int>)
    requires IsList(nodes, head, s) && forall i :: 0 <= i < |s| ==> s[i] in nodes' && nodes'[s[i]].next == nodes[s[i]].next
    ensures IsList(nodes', head, s)
  {}

  // ----- the tiling of the pool -----

  type Sizes = map<int, nat>

  function SizesOf(nodes: Memory): Sizes {
    map n | n in nodes :: nodes[n].rsize
  }

  function UsesOf(nodes: Memory): Sizes {
    map n | n in nodes :: nodes[n].usize
  }

  function After(r: Sizes, n: int): int
    requires n in r
  {
    n + OVERHEAD + r[n]
  }

  /** A block lies in the pool, and another block or the end of the pool follows it. */
  ghost predicate Follows(r: Sizes, s: set<int>, start: int, end: int, n: int)
    requires n in r
  {
    start <= n && After(r, n) <= end && (After(r, n) == end || After(r, n) in s) && r[n] % 4 == 0
  }

  ghost predicate Apart(r: Sizes, n: int, m: int)
    requires n in r
  {
    After(r, n) <= m
  }

  /** The blocks of `s` follow one another from `start` to `end` without overlap, and are aligned. */
  ghost predicate Tiles(r: Sizes, s: set<int>, start: int, end: int) {
    s <= r.Keys && start in s &&
    (forall n {:trigger Follows(r, s, start, end, n)} :: n in s ==> Follows(r, s, start, end, n)) &&
    (forall n, m {:trigger Apart(r, n, m)} :: n in s && m in s && n < m ==> Apart(r, n, m))
  }

  ghost predicate NoneAdjacent(r: Sizes, s: set<int>)
    requires s <= r.Keys
  {
    forall n, m :: n in s && m in s ==> After(r, n) != m
  }

  function Merged(r: Sizes, a: int, b: int): Sizes
    requires a in r && b in r
  {
    r[a := r[a] + OVERHEAD + r[b]]
  }

  /** Two adjacent blocks become one. */
  lemma MergeTiles(r: Sizes, s: set<int>, start: int, end: int, a: int, b: int)
    requires Tiles(r, s, start, end) && a in s && b in s && After(r, a) == b
    ensures Tiles(Merged(r, a, b), s - {b}, start, end)
  {
    var r', s' := Merged(r, a, b), s - {b};
    assert Follows(r, s, start, end, a) && Follows(r, s, start, end, b);
    assert After(r', a) == After(r, b);
    forall n | n in s' ensures Follows(r', s', start, end, n) {
      assert Follows(r, s, start, end, n);
      assert n < a ==> Apart(r, n, a);
      assert a < n ==> Apart(r, a, n);
      assert b < n ==> Apart(r, b, n);
    }
    forall n, m | n in s' && m in s' && n < m ensures Apart(r', n, m) {
      assert Apart(r, n, m);
      assert n == a && b < m ==> Apart(r, b, m);
    }
  }

  /** The sizes after a block is cut down to `x`, the rest becoming a block of its own. */
  function Split(r: Sizes, b: int, x: nat): Sizes
    requires b in r && r[b] >= x + OVERHEAD
  {
    r[b := x][b + OVERHEAD + x := r[b] - x - OVERHEAD]
  }

  lemma SplitTiles(r: Sizes, s: set<int>, start: int, end: int, b: int, x: nat)
    requires Tiles(r, s, start, end) && b in s && r[b] >= x + OVERHEAD && x % 4 == 0
    ensures b + OVERHEAD + x !in s && Tiles(Split(r, b, x), s + {b + OVERHEAD + x}, start, end)
  {
    var n := b + OVERHEAD + x;
    assert n in s ==> Apart(r, b, n);
    assert Follows(r, s, start, end, b);
    var r', s' := Split(r, b, x), s + {n};
    assert After(r', b) == n && After(r', n) == After(r, b);
    forall m | m in s' ensures Follows(r', s', start, end, m) {
      assert m in s ==> Follows(r, s, start, end, m);
    }
    forall m, k | m in s' && k in s' && m < k ensures Apart(r', m, k) {
      assert m in s && k in s ==> Apart(r, m, k);
      assert m in s && m < b ==> Apart(r, m, b);
      assert m in s && b < m ==> Apart(r, b, m);
      assert k in s && b < k ==> Apart(r, b, k);
    }
  }

  /** Every address of the pool belongs to exactly one block. */
  lemma TilesCover(r: Sizes, s: set<int>, start: int, end: int, x: int) returns (n: int)
    requires Tiles(r, s, start, end) && start <= x < end
    ensures n in s && n <= x < After(r, n)
    ensures forall m :: m in s && m <= x < After(r, m) ==> m == n
  {
    n := start;
    while After(r, n) <= x
      invariant n in s && n <= x
      decreases x - n
    {
      assert Follows(r, s, start, end, n);
      n := After(r, n);
    }
    forall m | m in s && m <= x < After(r, m) ensures m == n {
      assert m < n ==> Apart(r, m, n);
      assert n < m ==> Apart(r, n, m);
    }
  }

  // ----- the sum of the user sizes -----

  function Used(u: Sizes, s: seq<int>): nat
    requires forall x :: x in s ==> x in u
  {
    if s == [] then 0 else
    var n := s[0];
    assert n in s;
    u[n] + Used(u, s[1..])
  }

  lemma {:induction false} UsedRemoved(u: Sizes, s: seq<int>, n: int)
    requires Descending(s) && n in s && forall x :: x in s ==> x in u
    ensures forall x :: x in Removed(s, n) ==> x in u
    ensures Used(u, s) == u[n] + Used(u, Removed(s, n))
    decreases |s|
  {
    RemovedMeaning(s, n);
    if s[0] == n {
      RemovedFirst(s);
    } else {
      RemovedHead(s, n);
      hide Removed, Descending;
      UsedRemoved(u, s[1..], n);
      UsedHead(u, s[0], Removed(s[1..], n));
    }
  }

  lemma RemovedFirst(s: seq<int>)
    requires s != []
    ensures Removed(s, s[0]) == s[1..]
  {}

  lemma RemovedHead(s: seq<int>, n: int)
    requires Descending(s) && n in s && s[0] != n
    ensures n in s[1..] && Descending(s[1..]) && Removed(s, n) == [s[0]] + Removed(s[1..], n)
  {
    TailDescending(s, n);
    var k := Above(s[1..], n);
    assert Above(s, n) == k + 1;
    AboveMember(s[1..], n);
    hide Above, Descending;
    DroppedTail(s, k);
  }

  lemma DroppedTail(s: seq<int>, k: nat)
    requires k + 1 < |s|
    ensures s[..k + 1] + s[k + 2..] == [s[0]] + (s[1..][..k] + s[1..][k + 1..])
  {}

  lemma TailDescending(s: seq<int>, n: int)
    requires Descending(s) && n in s && s[0] != n
    ensures n in s[1..] && Descending(s[1..]) && s[0] > n
  {
    assert s == [s[0]] + s[1..];
  }

  lemma UsedHead(u: Sizes, a: int, s: seq<int>)
    requires a in u && forall x :: x in s ==> x in u
    ensures Used(u, [a] + s) == u[a] + Used(u, s)
  {
    assert ([a] + s)[1..] == s;
  }

  lemma UsedInserted(u: Sizes, s: seq<int>, n: int)
    requires Descending(s) && n !in s && n in u && forall x :: x in s ==> x in u
    ensures forall x :: x in Inserted(s, n) ==> x in u
    ensures Used(u, Inserted(s, n)) == u[n] + Used(u, s)
  {
    InsertedMeaning(s, n);
    InsertedRemoved(s, n);
    hide Inserted, Removed, Descending;
    UsedRemoved(u, Inserted(s, n), n);
  }

  /** Removing what was inserted gives the list back. */
  lemma InsertedRemoved(s: seq<int>, n: int)
    requires Descending(s) && n !in s
    ensures n in Inserted(s, n) && Removed(Inserted(s, n), n) == s
  {
    InsertedMeaning(s, n);
    var t, k := Inserted(s, n), Above(s, n);
    AboveIs(t, n, k);
    hide Above;
    assert t[k] == n && t[..k] == s[..k] && t[k + 1..] == s[k..];
    assert s[..k] + s[k..] == s;
  }

  // ----- the heap -----

  datatype ListName = AVAILABLE | ALLOCATED

  function Align(size: nat): nat {
    (size + 3) / 4 * 4
  }

  /** The blocks of a list. */
  ghost function Set(s: seq<int>): set<int> {
    set x | x in s
  }

  lemma SetsAfter(s: seq<int>, n: int)
    requires Descending(s)
    ensures n in s ==> Set(Removed(s, n)) == Set(s) - {n}
    ensures n !in s ==> Set(Inserted(s, n)) == Set(s) + {n}
  {
    if n in s {
      RemovedMeaning(s, n);
    } else {
      InsertedMeaning(s, n);
    }
    hide Removed, Inserted, Descending;
  }

  lemma RelinkKeeps(nodes: Memory, p: int, next: int)
    requires p in nodes
    ensures SizesOf(nodes[p := nodes[p].(next := next)]) == SizesOf(nodes)
    ensures UsesOf(nodes[p := nodes[p].(next := next)]) == UsesOf(nodes)
  {}

  lemma ResizeKeeps(nodes: Memory, p: int, rsize: nat)
    requires p in nodes
    ensures SizesOf(nodes[p := nodes[p].(rsize := rsize)]) == SizesOf(nodes)[p := rsize]
    ensures UsesOf(nodes[p := nodes[p].(rsize := rsize)]) == UsesOf(nodes)
  {}

  // ----- coalescing -----

  /** The list neighbours of an address: the next lower element and the next higher one. */
  predicate JoinsLower(r: Sizes, s: seq<int>, n: int)
    requires forall m :: m in s ==> m in r
  {
    var k := Above(s, n);
    k < |s| && After(r, s[k]) == n
  }

  predicate JoinsUpper(r: Sizes, s: seq<int>, n: int)
    requires n in r
  {
    var k := Above(s, n);
    k > 0 && After(r, n) == s[k - 1]
  }

  /** The block that `n` becomes part of, and the list and sizes once it joined the block below. */
  function Base(r: Sizes, s: seq<int>, n: int): int
    requires forall m :: m in s ==> m in r
  {
    if JoinsLower(r, s, n) then s[Above(s, n)] else n
  }

  function LowerList(r: Sizes, s: seq<int>, n: int): seq<int>
    requires forall m :: m in s ==> m in r
  {
    if JoinsLower(r, s, n) then s else Inserted(s, n)
  }

  function LowerSizes(r: Sizes, s: seq<int>, n: int): Sizes
    requires n in r && forall m :: m in s ==> m in r
  {
    if JoinsLower(r, s, n) then Merged(r, s[Above(s, n)], n) else r
  }

  /** The available list and the block sizes after `n` is freed. */
  function FreedList(r: Sizes, s: seq<int>, n: int): seq<int>
    requires n in r && forall m :: m in s ==> m in r
  {
    if JoinsUpper(r, s, n) then Removed(LowerList(r, s, n), s[Above(s, n) - 1]) else LowerList(r, s, n)
  }

  function FreedSizes(r: Sizes, s: seq<int>, n: int): Sizes
    requires n in r && forall m :: m in s ==> m in r
  {
    var r1 := LowerSizes(r, s, n);
    if JoinsUpper(r, s, n) then Merged(r1, Base(r, s, n), s[Above(s, n) - 1]) else r1
  }

  /** A block to be freed: it tiles the pool together with the available blocks and the others. */
  ghost predicate Freeable(r: Sizes, s: seq<int>, others: set<int>, n: int, start: int, end: int) {
    Descending(s) && n !in s && n !in others && Set(s) !! others && Tiles(r, Set(s) + others + {n}, start, end) &&
    n in r && forall m :: m in s ==> m in r
  }

  lemma LowerTiles(r: Sizes, s: seq<int>, others: set<int>, n: int, start: int, end: int)
    requires Freeable(r, s, others, n, start, end)
    ensures var s1 := LowerList(r, s, n);
            Descending(s1) && Set(s1) !! others && Base(r, s, n) in s1 &&
            Tiles(LowerSizes(r, s, n), Set(s1) + others, start, end)
  {
    var all := Set(s) + others + {n};
    AboveMember(s, n);
    SetsAfter(s, n);
    InsertedMeaning(s, n);
    hide Tiles, Above, Descending, Inserted, Removed;
    if JoinsLower(r, s, n) {
      MergeTiles(r, all, start, end, s[Above(s, n)], n);
      assert all - {n} == Set(s) + others;
    } else {
      assert all == Set(Inserted(s, n)) + others;
    }
  }

  lemma UpperTiles(r: Sizes, s: seq<int>, others: set<int>, start: int, end: int, a: int, p: int)
    requires Descending(s) && Set(s) !! others && Tiles(r, Set(s) + others, start, end)
    requires a in s && p in s && a in r && p in r && After(r, a) == p
    ensures Descending(Removed(s, p)) && Set(Removed(s, p)) !! others
    ensures Tiles(Merged(r, a, p), Set(Removed(s, p)) + others, start, end)
  {
    RemovedMeaning(s, p);
    SetsAfter(s, p);
    hide Tiles, Descending, Removed;
    MergeTiles(r, Set(s) + others, start, end, a, p);
    assert Set(s) + others - {p} == Set(Removed(s, p)) + others;
  }

  /** Where `n` ends, once it joined the block below. */
  lemma LowerEnds(r: Sizes, s: seq<int>, n: int)
    requires n in r && n !in s && forall m :: m in s ==> m in r
    ensures var r1 := LowerSizes(r, s, n);
            Base(r, s, n) in r1 && After(r1, Base(r, s, n)) == After(r, n) &&
            forall m :: m in s && m != Base(r, s, n) ==> m in r1 && r1[m] == r[m]
  {}

  lemma UpperMember(r: Sizes, s: seq<int>, n: int)
    requires n in r && n !in s && Descending(s) && (forall m :: m in s ==> m in r) && JoinsUpper(r, s, n)
    ensures var p := s[Above(s, n) - 1];
            p in s && p != Base(r, s, n) && p in LowerList(r, s, n)
  {
    InsertedMeaning(s, n);
    AboveMember(s, n);
    hide Inserted, Above;
  }

  lemma FreedTiles(r: Sizes, s: seq<int>, others: set<int>, n: int, start: int, end: int)
    requires Freeable(r, s, others, n, start, end)
    ensures Descending(FreedList(r, s, n)) && Set(FreedList(r, s, n)) !! others
    ensures Tiles(FreedSizes(r, s, n), Set(FreedList(r, s, n)) + others, start, end)
  {
    LowerTiles(r, s, others, n, start, end);
    LowerEnds(r, s, n);
    hide Tiles, LowerSizes, LowerList, Base, Removed, Above;
    if JoinsUpper(r, s, n) {
      UpperMember(r, s, n);
      UpperTiles(LowerSizes(r, s, n), LowerList(r, s, n), others, start, end, Base(r, s, n), s[Above(s, n) - 1]);
    }
  }

  /** The neighbours of `n` in the list are the only blocks of it that can touch `n`. */
  lemma TouchesNeighbor(r: Sizes, s: seq<int>, others: set<int>, n: int, start: int, end: int, x: int)
    requires Freeable(r, s, others, n, start, end) && x in s
    ensures x in r && n in r
    ensures After(r, x) == n ==> Above(s, n) < |s| && s[Above(s, n)] == x
    ensures After(r, n) == x ==> Above(s, n) > 0 && s[Above(s, n) - 1] == x
  {
    AboveMember(s, n);
    var k, all := Above(s, n), Set(s) + others + {n};
    var i :| 0 <= i < |s| && s[i] == x;
    hide Above;
    assert n in all && forall m :: m in s ==> m in all;
    if i > k {
      ApartFrom(r, all, start, end, x, s[k]);
    } else if i + 1 < k {
      ApartFrom(r, all, start, end, n, s[k - 1]);
    }
    hide Tiles;
  }

  lemma ApartFrom(r: Sizes, s: set<int>, start: int, end: int, x: int, y: int)
    requires Tiles(r, s, start, end) && x in s && y in s && x < y
    ensures x in r && After(r, x) <= y
  {
    assert Apart(r, x, y);
  }

  lemma LowerMember(r: Sizes, s: seq<int>, n: int, x: int)
    requires n in r && n !in s && Descending(s) && (forall m :: m in s ==> m in r) && x in LowerList(r, s, n)
    ensures x in s || (x == n && !JoinsLower(r, s, n))
  {
    InsertedMeaning(s, n);
    hide Inserted, Descending;
  }

  lemma FreedIsMember(r: Sizes, s: seq<int>, n: int, x: int)
    requires n in r && n !in s && Descending(s) && (forall m :: m in s ==> m in r) && x in FreedList(r, s, n)
    ensures (x in s || (x == n && !JoinsLower(r, s, n))) && (JoinsUpper(r, s, n) ==> x != s[Above(s, n) - 1])
  {
    hide LowerList, Removed, Above, Inserted, Descending, JoinsUpper, JoinsLower;
    if JoinsUpper(r, s, n) {
      LowerDescends(r, s, n);
      UpperMember(r, s, n);
      RemovedMeaning(LowerList(r, s, n), UpperOf(r, s, n));
    }
    LowerMember(r, s, n, x);
  }

  function UpperOf(r: Sizes, s: seq<int>, n: int): int
    requires n in r && JoinsUpper(r, s, n)
  {
    s[Above(s, n) - 1]
  }

  lemma FreedEnds(r: Sizes, s: seq<int>, n: int, x: int)
    requires n in r && n !in s && Descending(s) && (forall m :: m in s ==> m in r)
    requires (x in s || (x == n && !JoinsLower(r, s, n))) && (JoinsUpper(r, s, n) ==> x != s[Above(s, n) - 1])
    ensures x in FreedSizes(r, s, n)
    ensures After(FreedSizes(r, s, n), x) ==
            if x != Base(r, s, n) then After(r, x) else if JoinsUpper(r, s, n) then After(r, s[Above(s, n) - 1]) else After(r, n)
  {
    LowerEnds(r, s, n);
    hide LowerSizes, LowerList, Above, Descending, Merged, Base;
    if JoinsUpper(r, s, n) {
      UpperMember(r, s, n);
      MergedEnds(LowerSizes(r, s, n), Base(r, s, n), s[Above(s, n) - 1], x);
    }
    BaseIs(r, s, n);
  }

  lemma BaseIs(r: Sizes, s: seq<int>, n: int)
    requires forall m :: m in s ==> m in r
    ensures JoinsLower(r, s, n) || Base(r, s, n) == n
  {}

  lemma MergedEnds(r: Sizes, a: int, p: int, x: int)
    requires a in r && p in r && After(r, a) == p && x in r
    ensures x in Merged(r, a, p) && After(Merged(r, a, p), x) == if x == a then After(r, p) else After(r, x)
  {}

  /** A block of the list after `n` is freed, and where it ends. */
  lemma FreedMember(r: Sizes, s: seq<int>, n: int, x: int)
    requires n in r && n !in s && Descending(s) && (forall m :: m in s ==> m in r) && x in FreedList(r, s, n)
    ensures x in FreedSizes(r, s, n)
    ensures (x in s || (x == n && !JoinsLower(r, s, n))) && (JoinsUpper(r, s, n) ==> x != s[Above(s, n) - 1])
    ensures After(FreedSizes(r, s, n), x) ==
            if x != Base(r, s, n) then After(r, x) else if JoinsUpper(r, s, n) then After(r, s[Above(s, n) - 1]) else After(r, n)
  {
    FreedIsMember(r, s, n, x);
    FreedEnds(r, s, n, x);
    hide *;
  }

  lemma LowerDescends(r: Sizes, s: seq<int>, n: int)
    requires n in r && n !in s && Descending(s) && forall m :: m in s ==> m in r
    ensures Descending(LowerList(r, s, n))
  {
    InsertedMeaning(s, n);
    hide Inserted, Descending;
  }

  /** Freeing leaves no two available blocks adjacent. */
  lemma FreedNotAdjacent(r: Sizes, s: seq<int>, others: set<int>, n: int, start: int, end: int)
    requires Freeable(r, s, others, n, start, end) && Set(s) <= r.Keys && NoneAdjacent(r, Set(s))
    ensures Set(FreedList(r, s, n)) <= FreedSizes(r, s, n).Keys
    ensures NoneAdjacent(FreedSizes(r, s, n), Set(FreedList(r, s, n)))
  {
    hide FreedSizes, FreedList, Tiles, Descending, NoneAdjacent;
    forall x | x in FreedList(r, s, n) ensures x in FreedSizes(r, s, n) {
      FreedMember(r, s, n, x);
    }
    forall x, y | x in FreedList(r, s, n) && y in FreedList(r, s, n) ensures After(FreedSizes(r, s, n), x) != y {
      FreedPair(r, s, others, n, start, end, x, y);
    }
    NoneAdjacentFrom(FreedSizes(r, s, n), FreedList(r, s, n));
  }

  lemma NoneAdjacentFrom(r: Sizes, s: seq<int>)
    requires forall x :: x in s ==> x in r
    requires forall x, y :: x in s && y in s ==> After(r, x) != y
    ensures Set(s) <= r.Keys && NoneAdjacent(r, Set(s))
  {
    forall x | x in Set(s) ensures x in r.Keys {
      assert x in s;
    }
    assert forall x :: x in Set(s) <==> x in s;
  }

  lemma NotAdjacent(r: Sizes, s: seq<int>, x: int, y: int)
    requires Set(s) <= r.Keys && NoneAdjacent(r, Set(s)) && x in s && y in s
    ensures x in r && After(r, x) != y
  {
    assert x in Set(s) && y in Set(s);
  }

  lemma FreedPair(r: Sizes, s: seq<int>, others: set<int>, n: int, start: int, end: int, x: int, y: int)
    requires Freeable(r, s, others, n, start, end) && Set(s) <= r.Keys && NoneAdjacent(r, Set(s))
    requires x in FreedList(r, s, n) && y in FreedList(r, s, n)
    ensures x in FreedSizes(r, s, n) && After(FreedSizes(r, s, n), x) != y
  {
    hide Tiles, FreedList, FreedSizes, Descending, NoneAdjacent, Set;
    FreedMember(r, s, n, x);
    FreedMember(r, s, n, y);
    if x in s {
      TouchesNeighbor(r, s, others, n, start, end, x);
    }
    if y in s {
      TouchesNeighbor(r, s, others, n, start, end, y);
      if x in s {
        NotAdjacent(r, s, x, y);
      }
      if JoinsUpper(r, s, n) {
        NotAdjacent(r, s, s[Above(s, n) - 1], y);
      }
    }
    hide Above;
  }

  /** The blocks of the two lists and `extra` tile the pool; no two available ones are adjacent; an allocated
      block has room for what was asked for. */
  ghost predicate Pool(r: Sizes, u: Sizes, s: seq<int>, a: seq<int>, extra: set<int>, start: int, end: int) {
    0 < start < end < LIMIT && Descending(s) && Descending(a) && Tiles(r, Set(s) + Set(a) + extra, start, end) &&
    Set(s) !! Set(a) && extra !! Set(s) + Set(a) && Set(s) <= r.Keys && NoneAdjacent(r, Set(s)) &&
    forall n :: n in a ==> n in r && n in u && u[n] <= r[n]
  }

  class Heap {
    var nodes: Memory
    var availableHead: int
    var allocatedHead: int
    var total: int
    var allocLen: int
    var availLen: int
    ghost var avail: seq<int>
    ghost var alloc: seq<int>
    ghost var start: int
    ghost var end: int

    /** Both linked lists are descending and have no block in common. */
    ghost predicate Linked()
      reads this`nodes, this`availableHead, this`allocatedHead, this`availLen, this`allocLen, this`avail, this`alloc
    {
      IsList(nodes, availableHead, avail) && IsList(nodes, allocatedHead, alloc) && Descending(avail) && Descending(alloc) &&
      (forall n :: n in avail ==> n !in alloc) && availLen == |avail| && allocLen == |alloc|
    }

    ghost predicate Sound(extra: set<int>)
      reads this`nodes, this`availableHead, this`allocatedHead, this`availLen, this`allocLen, this`avail, this`alloc, this`start, this`end
    {
      Linked() && Pool(SizesOf(nodes), UsesOf(nodes), avail, alloc, extra, start, end)
    }

    ghost predicate Valid()
      reads this
    {
      Sound({}) && Listed(UsesOf(nodes), alloc) && total == Used(UsesOf(nodes), alloc)
    }

    /** `smalloc_set_memory_pool`. */
    constructor (memoryStart: int, memoryEnd: int)
      requires 0 < memoryStart && memoryStart + OVERHEAD <= memoryEnd < LIMIT && (memoryEnd - memoryStart) % 4 == 0
      ensures Valid() && start == memoryStart && end == memoryEnd && alloc == [] && avail == [memoryStart]
      ensures memoryStart in nodes && nodes[memoryStart].rsize == memoryEnd - memoryStart - OVERHEAD
    {
      var rsize := memoryEnd - memoryStart - OVERHEAD;
      nodes := map[memoryStart := Node(rsize, 0, 0)];
      allocatedHead, availableHead := 0, memoryStart;
      total, allocLen, availLen := 0, 0, 1;
      avail, alloc, start, end := [memoryStart], [], memoryStart, memoryEnd;
      new;
      FirstPool(memoryStart, memoryEnd, SizesOf(nodes), UsesOf(nodes));
    }

    /** `ADDR(c) > ADDR(n)` fails at the first element that is not above `n`; `p` is the one before it. */
    method Walk(head: int, n: int, ghost s: seq<int>) returns (c: int, p: int, ghost k: nat)
      requires IsList(nodes, head, s)
      ensures k == Above(s, n) && c == Elem(s, k) && p == if k == 0 then head else s[k - 1]
    {
      c, p, k := head, head, 0;
      while c != 0 && c > n
        invariant k <= |s| && c == Elem(s, k) && (forall i :: 0 <= i < k ==> s[i] > n)
        invariant p == if k == 0 then head else s[k - 1]
        decreases |s| - k
      {
        p := c;
        c := nodes[c].next;
        k := k + 1;
      }
      AboveIs(s, n, k);
    }

    /** The part of `delete` that relinks. */
    method Unlink(head: int, n: int, ghost s: seq<int>) returns (head': int)
      requires IsList(nodes, head, s) && Descending(s) && n in s
      modifies this`nodes
      ensures IsList(nodes, head', Removed(s, n))
      ensures SizesOf(nodes) == SizesOf(old(nodes)) && UsesOf(nodes) == UsesOf(old(nodes))
      ensures SameLinks(old(nodes), nodes, s)
    {
      AboveMember(s, n);
      ghost var k;
      var c, p;
      c, p, k := Walk(head, n, s);
      UnlinkList(nodes, head, s, k);
      hide Above;
      if c == p {
        head' := nodes[c].next;
      } else {
        head' := head;
        RelinkKeeps(nodes, p, nodes[c].next);
        hide SizesOf, UsesOf;
        nodes := nodes[p := nodes[p].(next := nodes[c].next)];
      }
    }

    /** `delete`, for a block of the list. */
    method Delete(l: ListName, n: int)
      requires Linked() && n in (if l == ALLOCATED then alloc else avail)
      modifies this`nodes, this`availableHead, this`allocatedHead, this`availLen, this`allocLen, this`avail, this`alloc
      ensures Linked() && SizesOf(nodes) == SizesOf(old(nodes)) && UsesOf(nodes) == UsesOf(old(nodes))
      ensures avail == if l == AVAILABLE then Removed(old(avail), n) else old(avail)
      ensures alloc == if l == ALLOCATED then Removed(old(alloc), n) else old(alloc)
    {
      hide Removed, IsList;
      if l == ALLOCATED {
        RemovedMeaning(alloc, n);
        allocLen := allocLen - 1;
        allocatedHead := Unlink(allocatedHead, n, alloc);
        OtherList(old(nodes), nodes, alloc, availableHead, avail);
        alloc := Removed(alloc, n);
      } else {
        RemovedMeaning(avail, n);
        availLen := availLen - 1;
        availableHead := Unlink(availableHead, n, avail);
        OtherList(old(nodes), nodes, avail, allocatedHead, alloc);
        avail := Removed(avail, n);
      }
    }

    /** The part of `insert` that links a new block. */
    method Link(head: int, n: int, c: int, p: int, ghost s: seq<int>) returns (head': int)
      requires IsList(nodes, head, s) && Descending(s) && n !in s && n in nodes && n != 0
      requires c == Elem(s, Above(s, n)) && p == if Above(s, n) == 0 then head else s[Above(s, n) - 1]
      modifies this`nodes
      ensures IsList(nodes, head', Inserted(s, n))
      ensures SizesOf(nodes) == SizesOf(old(nodes)) && UsesOf(nodes) == UsesOf(old(nodes))
      ensures SameLinks(old(nodes), nodes, s + [n])
    {
      ghost var k := Above(s, n);
      LinkList(nodes, head, s, k, n);
      assert c == p <==> k == 0;
      hide Above, SizesOf, UsesOf, IsList, Descending;
      RelinkKeeps(nodes, n, c);
      nodes := nodes[n := nodes[n].(next := c)];
      if c == p {
        head' := n;
      } else {
        head' := head;
        RelinkKeeps(nodes, p, n);
        nodes := nodes[p := nodes[p].(next := n)];
      }
    }

    /** `c->x.rsize += OVERHEAD + b->x.rsize`. */
    method Absorb(a: int, b: int)
      requires Linked() && a in nodes && b in nodes
      modifies this`nodes
      ensures Linked() && SizesOf(nodes) == Merged(SizesOf(old(nodes)), a, b) && UsesOf(nodes) == UsesOf(old(nodes))
    {
      ResizeKeeps(nodes, a, nodes[a].rsize + OVERHEAD + nodes[b].rsize);
      nodes := nodes[a := nodes[a].(rsize := nodes[a].rsize + OVERHEAD + nodes[b].rsize)];
      hide SizesOf, UsesOf;
      FrameList(old(nodes), nodes, availableHead, avail);
      FrameList(old(nodes), nodes, allocatedHead, alloc);
    }

    /** `insert` into the allocated list. */
    method InsertAllocated(n: int)
      requires Linked() && n in nodes && n != 0 && n !in avail && n !in alloc
      modifies this`nodes, this`allocatedHead, this`allocLen, this`alloc
      ensures Linked() && alloc == Inserted(old(alloc), n)
      ensures SizesOf(nodes) == SizesOf(old(nodes)) && UsesOf(nodes) == UsesOf(old(nodes))
    {
      hide IsList, Above, Inserted, Descending, SizesOf, UsesOf;
      ghost var k;
      var c, p;
      c, p, k := Walk(allocatedHead, n, alloc);
      LinkAllocated(n, c, p);
    }

    method LinkAllocated(n: int, c: int, p: int)
      requires Linked() && n in nodes && n != 0 && n !in avail && n !in alloc
      requires c == Elem(alloc, Above(alloc, n)) && p == if Above(alloc, n) == 0 then allocatedHead else alloc[Above(alloc, n) - 1]
      modifies this`nodes, this`allocatedHead, this`allocLen, this`alloc
      ensures Linked() && alloc == Inserted(old(alloc), n)
      ensures SizesOf(nodes) == SizesOf(old(nodes)) && UsesOf(nodes) == UsesOf(old(nodes))
    {
      hide IsList, Above, Inserted, Descending, SizesOf, UsesOf, SameLinks;
      allocLen := allocLen + 1;
      allocatedHead := Link(allocatedHead, n, c, p, alloc);
      InsertedMeaning(alloc, n);
      OtherList(old(nodes), nodes, alloc + [n], availableHead, avail);
      alloc := Inserted(alloc, n);
    }

    /** `insert` into the available list without joining the block below. */
    method LinkAvailable(n: int, c: int, p: int)
      requires Linked() && n in nodes && n != 0 && n !in avail && n !in alloc
      requires c == Elem(avail, Above(avail, n)) && p == if Above(avail, n) == 0 then availableHead else avail[Above(avail, n) - 1]
      modifies this`nodes, this`availableHead, this`availLen, this`avail
      ensures Linked() && avail == Inserted(old(avail), n)
      ensures SizesOf(nodes) == SizesOf(old(nodes)) && UsesOf(nodes) == UsesOf(old(nodes))
    {
      hide IsList, Above, Inserted, Descending, SizesOf, UsesOf, SameLinks;
      availLen := availLen + 1;
      availableHead := Link(availableHead, n, c, p, avail);
      InsertedMeaning(avail, n);
      OtherList(old(nodes), nodes, avail + [n], allocatedHead, alloc);
      avail := Inserted(avail, n);
    }

    /** `insert` into the available list: the block joins the one below it, or is linked in; then the one
        above joins it. */
    method InsertAvailable(n: int)
      requires Linked() && n in nodes && n != 0 && n !in avail && n !in alloc
      modifies this`nodes, this`availableHead, this`allocatedHead, this`availLen, this`allocLen, this`avail, this`alloc
      ensures Linked() && alloc == old(alloc) && UsesOf(nodes) == UsesOf(old(nodes))
      ensures n in SizesOf(old(nodes)) && (forall m :: m in old(avail) ==> m in SizesOf(old(nodes)))
      ensures avail == FreedList(SizesOf(old(nodes)), old(avail), n)
      ensures SizesOf(nodes) == FreedSizes(SizesOf(old(nodes)), old(avail), n)
    {
      hide Above, IsList, Descending, FreedList, FreedSizes, SizesOf, UsesOf, JoinsLower;
      ghost var k;
      var c, p;
      c, p, k := Walk(availableHead, n, avail);
      Neighbours(nodes, availableHead, avail, n, c, p);
      if availableHead != 0 && c != 0 && Adjacent(c, n) {
        JoinBelow(n, c, p);
      } else {
        LinkBetween(n, c, p);
      }
    }

    method JoinBelow(n: int, c: int, p: int)
      requires Linked() && n in nodes && n !in avail && n !in alloc
      requires n in SizesOf(nodes) && (forall m :: m in avail ==> m in SizesOf(nodes)) && JoinsLower(SizesOf(nodes), avail, n)
      requires c == avail[Above(avail, n)] && p == if Above(avail, n) == 0 then c else avail[Above(avail, n) - 1]
      modifies this`nodes, this`availableHead, this`allocatedHead, this`availLen, this`allocLen, this`avail, this`alloc
      ensures Linked() && alloc == old(alloc) && UsesOf(nodes) == UsesOf(old(nodes))
      ensures avail == FreedList(SizesOf(old(nodes)), old(avail), n)
      ensures SizesOf(nodes) == FreedSizes(SizesOf(old(nodes)), old(avail), n)
    {
      LowerCase(SizesOf(nodes), avail, n, c, p);
      SizesAt(nodes);
      hide Above, IsList, Descending, FreedList, FreedSizes, UsesOf, Merged, Removed, JoinsLower, SizesOf;
      Absorb(c, n);
      SizesAt(nodes);
      if Adjacent(c, p) {
        Delete(AVAILABLE, p);
        SizesAt(nodes);
        Absorb(c, p);
      }
    }

    method LinkBetween(n: int, c: int, p: int)
      requires Linked() && n in nodes && n != 0 && n !in avail && n !in alloc
      requires n in SizesOf(nodes) && (forall m :: m in avail ==> m in SizesOf(nodes)) && !JoinsLower(SizesOf(nodes), avail, n)
      requires c == Elem(avail, Above(avail, n)) && p == if Above(avail, n) == 0 then availableHead else avail[Above(avail, n) - 1]
      requires c == p <==> Above(avail, n) == 0
      modifies this`nodes, this`availableHead, this`allocatedHead, this`availLen, this`allocLen, this`avail, this`alloc
      ensures Linked() && alloc == old(alloc) && UsesOf(nodes) == UsesOf(old(nodes))
      ensures avail == FreedList(SizesOf(old(nodes)), old(avail), n)
      ensures SizesOf(nodes) == FreedSizes(SizesOf(old(nodes)), old(avail), n)
    {
      LinkCase(SizesOf(nodes), avail, n, p);
      hide Above, IsList, Descending, FreedList, FreedSizes, UsesOf, Merged, Removed, JoinsLower, SizesOf, Inserted;
      LinkAvailable(n, c, p);
      SizesAt(nodes);
      if c != p {
        JoinAbove(n, p);
      }
    }

    /** A linked block absorbs the one above it when the two are adjacent. */
    method JoinAbove(n: int, p: int)
      requires Linked() && n in nodes && p in avail && p in nodes
      modifies this`nodes, this`availableHead, this`allocatedHead, this`availLen, this`allocLen, this`avail, this`alloc
      ensures Linked() && alloc == old(alloc) && UsesOf(nodes) == UsesOf(old(nodes))
      ensures if old(Adjacent(n, p)) then avail == Removed(old(avail), p) && SizesOf(nodes) == Merged(SizesOf(old(nodes)), n, p)
              else avail == old(avail) && nodes == old(nodes)
    {
      SizesAt(nodes);
      hide Above, IsList, Descending, UsesOf, Merged, Removed, SizesOf;
      if Adjacent(n, p) {
        Delete(AVAILABLE, p);
        SizesAt(nodes);
        Absorb(n, p);
      }
    }

    /** `ADJACENT`. */
    function Adjacent(a: int, b: int): (yes: bool)
      requires a in nodes
      reads this
    {
      a + OVERHEAD + nodes[a].rsize == b
    }

    // ----- malloc and free -----

    /** The search of `bestfit`: a smallest available block that fits, 0 when none does. */
    method FindBest(size: nat) returns (b: int)
      requires Sound({})
      ensures b == 0 ==> forall m :: m in avail ==> nodes[m].rsize < size
      ensures b != 0 ==> b in avail && b in nodes && nodes[b].rsize >= size &&
                         forall m :: m in avail && nodes[m].rsize >= size ==> nodes[m].rsize >= nodes[b].rsize
    {
      ghost var s := avail;
      SmallBlocks(SizesOf(nodes), UsesOf(nodes), avail, alloc, {}, start, end);
      SizesAt(nodes);
      hide Pool, Set, SizesOf, UsesOf, Descending;
      var best := MAXINT;
      b := 0;
      var c := availableHead;
      ghost var i := 0;
      while c != 0
        invariant i <= |s| && c == Elem(s, i)
        invariant b == 0 ==> best == MAXINT && forall k :: 0 <= k < i ==> nodes[s[k]].rsize < size
        invariant b != 0 ==> b in s && nodes[b].rsize >= size && best == nodes[b].rsize - size
        invariant b != 0 ==> forall k :: 0 <= k < i && nodes[s[k]].rsize >= size ==> nodes[s[k]].rsize >= nodes[b].rsize
        decreases |s| - i
      {
        assert c == s[i] && c in s;
        if nodes[c].rsize >= size {
          var over := nodes[c].rsize - size;
          if over < best || c == availableHead {
            best := over;
            b := c;
          }
        }
        c := nodes[c].next;
        i := i + 1;
      }
    }

    /** `b` leaves the available list. */
    method TakeBest(b: int)
      requires Sound({}) && b in avail
      modifies this`nodes, this`availableHead, this`allocatedHead, this`availLen, this`allocLen, this`avail, this`alloc
      ensures Sound({b}) && alloc == old(alloc) && avail == Removed(old(avail), b)
      ensures SizesOf(nodes) == SizesOf(old(nodes)) && UsesOf(nodes) == UsesOf(old(nodes))
    {
      TakenPool(SizesOf(nodes), UsesOf(nodes), avail, alloc, b, start, end);
      hide Pool, Set, SizesOf, UsesOf, Removed, Descending, IsList;
      Delete(AVAILABLE, b);
    }

    /** What is left of a large block beyond `aligned` bytes becomes an available block of its own. */
    method Carve(b: int, aligned: nat)
      requires Sound({b}) && b in nodes && nodes[b].rsize >= aligned + OVERHEAD + MINNODE && aligned % 4 == 0
      modifies this`nodes, this`availableHead, this`allocatedHead, this`availLen, this`allocLen, this`avail, this`alloc
      ensures Sound({b}) && alloc == old(alloc) && b in nodes && nodes[b].rsize == aligned
      ensures Keeps(SizesOf(old(nodes)), SizesOf(nodes), alloc) && Keeps(UsesOf(old(nodes)), UsesOf(nodes), alloc)
    {
      hide Linked, Pool, Set, SizesOf, UsesOf, Descending, IsList, Split, FreedList, FreedSizes, Keeps;
      var leftover := nodes[b].rsize - aligned - OVERHEAD;
      var n := b + OVERHEAD + aligned;
      SizesAt(nodes);
      CarvedPool(SizesOf(nodes), UsesOf(nodes), avail, alloc, b, aligned, start, end);
      PlaceLeftover(b, n, aligned, leftover);
      InsertAvailable(n);
      SizesAt(nodes);
    }

    /** The headers of the shortened block and of the one behind it. */
    method PlaceLeftover(b: int, n: int, aligned: nat, leftover: nat)
      requires Linked() && b in nodes && b !in avail && b !in alloc && n !in avail && n !in alloc && n != b
      requires n == b + OVERHEAD + aligned && nodes[b].rsize == leftover + OVERHEAD + aligned
      modifies this`nodes
      ensures Linked() && SizesOf(nodes) == Split(SizesOf(old(nodes)), b, aligned) && n in nodes
      ensures Keeps(UsesOf(old(nodes)), UsesOf(nodes), alloc)
    {
      hide SizesOf, UsesOf, Split, Descending, IsList, Placed, Keeps;
      PlacedSizes(nodes, b, aligned);
      PlacedList(nodes, b, aligned, availableHead, avail);
      PlacedList(nodes, b, aligned, allocatedHead, alloc);
      PlacedKeeps(nodes, b, aligned, alloc);
      nodes := Placed(nodes, b, aligned);
    }

    /** `b` records the user's size and joins the allocated list. */
    method Grant(b: int, size: nat)
      requires Sound({b}) && b in nodes && b != 0 && size <= nodes[b].rsize && Listed(UsesOf(nodes), alloc)
      modifies this`nodes, this`allocatedHead, this`allocLen, this`alloc
      ensures Sound({}) && avail == old(avail) && alloc == Inserted(old(alloc), b)
      ensures SizesOf(nodes) == SizesOf(old(nodes)) && Keeps(UsesOf(old(nodes)), UsesOf(nodes), old(alloc))
      ensures Listed(UsesOf(nodes), alloc) && Used(UsesOf(nodes), alloc) == Used(UsesOf(old(nodes)), old(alloc)) + size
      ensures b in nodes && nodes[b].usize == size
    {
      hide Pool, Set, SizesOf, UsesOf, Descending, IsList, Keeps, Inserted, Used, Listed;
      LooseParts(SizesOf(nodes), UsesOf(nodes), avail, alloc, b, start, end);
      SizesAt(nodes);
      GrantedPool(SizesOf(nodes), UsesOf(nodes), avail, alloc, b, size, start, end);
      GrantedNode(nodes, b, size);
      GrantedList(nodes, b, size, availableHead, avail);
      GrantedList(nodes, b, size, allocatedHead, alloc);
      nodes := nodes[b := nodes[b].(usize := size)];
      UsesAt(nodes);
      InsertAllocated(b);
      UsesAt(nodes);
    }

    /** `bestfit`. */
    method BestFit(size: nat) returns (b: int)
      requires Sound({}) && Listed(UsesOf(nodes), alloc)
      modifies this`nodes, this`availableHead, this`allocatedHead, this`availLen, this`allocLen, this`avail, this`alloc
      ensures Sound({})
      ensures b == 0 <==> !FitsAny(SizesOf(old(nodes)), old(avail), size)
      ensures b == 0 ==> nodes == old(nodes) && avail == old(avail) && alloc == old(alloc)
      ensures b != 0 ==> IsBest(SizesOf(old(nodes)), old(avail), size, b) && alloc == Inserted(old(alloc), b) &&
                         b in nodes && nodes[b].usize == size && nodes[b].rsize >= Align(size) &&
                         nodes[b].rsize < Align(size) + OVERHEAD + MINNODE
      ensures b != 0 ==> Keeps(SizesOf(old(nodes)), SizesOf(nodes), old(alloc)) && Keeps(UsesOf(old(nodes)), UsesOf(nodes), old(alloc))
      ensures Listed(UsesOf(nodes), alloc)
      ensures b != 0 ==> Used(UsesOf(nodes), alloc) == Used(UsesOf(old(nodes)), old(alloc)) + size
    {
      hide Linked, Pool, Set, SizesOf, UsesOf, Descending, IsList, Keeps, Inserted, Used, Listed, Removed, FitsAny, IsBest;
      var aligned := Align(size);
      b := FindBest(size);
      SizesAt(nodes);
      BestIs(SizesOf(nodes), avail, size, b);
      if b == 0 {
        return;
      }
      BlocksAligned(SizesOf(nodes), UsesOf(nodes), avail, alloc, start, end, b, size);
      ghost var r0, u0, a0 := SizesOf(nodes), UsesOf(nodes), alloc;
      TakeBest(b);
      SizesAt(nodes);
      KeepsSame(r0, a0);
      KeepsSame(u0, a0);
      if nodes[b].rsize >= aligned + OVERHEAD + MINNODE {
        Carve(b, aligned);
        ListedKeeps(u0, UsesOf(nodes), a0);
      }
      SizesAt(nodes);
      ghost var r1, u1 := SizesOf(nodes), UsesOf(nodes);
      Grant(b, size);
      KeepsThen(u0, u1, UsesOf(nodes), a0);
      SizesAt(nodes);
    }

    /** `malloc`: a smallest block that fits, or NULL when none does. */
    method Malloc(size: nat) returns (ptr: int)
      requires Valid()
      modifies this
      ensures Valid() && start == old(start) && end == old(end)
      ensures ptr == 0 <==> !FitsAny(SizesOf(old(nodes)), old(avail), size)
      ensures ptr == 0 ==> nodes == old(nodes) && avail == old(avail) && alloc == old(alloc) && total == old(total)
      ensures ptr != 0 ==> var b := ptr - OVERHEAD;
                           IsBest(SizesOf(old(nodes)), old(avail), size, b) && alloc == Inserted(old(alloc), b) &&
                           b in nodes && nodes[b].usize == size && Align(size) <= nodes[b].rsize < Align(size) + OVERHEAD + MINNODE
      ensures ptr != 0 ==> Keeps(SizesOf(old(nodes)), SizesOf(nodes), old(alloc)) && Keeps(UsesOf(old(nodes)), UsesOf(nodes), old(alloc)) &&
                           total == old(total) + size
    {
      hide Linked, Pool, SizesOf, UsesOf, Keeps, Inserted, Used, Listed, FitsAny, IsBest, Align;
      ghost var r0, s0 := SizesOf(nodes), avail;
      Positive(SizesOf(nodes), UsesOf(nodes), avail, alloc, start, end, size);
      var store := BestFit(size);
      if store == 0 {
        return 0;
      }
      total := total + size;
      return store + OVERHEAD;
    }

    lemma AllocatedList()
      requires Sound({})
      ensures IsList(nodes, allocatedHead, alloc) && Descending(alloc)
    {}

    /** Once every block has been freed, the available list is one block of the original size. */
    lemma AllBlocksFreed()
      requires Valid() && alloc == []
      ensures avail == [start] && availLen == 1 && total == 0
      ensures start in nodes && nodes[start].rsize == end - start - OVERHEAD
    {
      AllFreed(SizesOf(nodes), UsesOf(nodes), avail, start, end);
      SizesAt(nodes);
      hide Pool, SizesOf, UsesOf;
    }

    /** `find`: the allocated block that a pointer was given out for. */
    method Find(ptr: int) returns (c: int)
      requires Sound({})
      ensures c == if ptr - OVERHEAD in alloc then ptr - OVERHEAD else 0
      ensures c != 0 ==> c in nodes
    {
      AllocatedList();
      hide Sound, Linked, Above, Descending;
      ghost var k: nat := 0;
      var n := ptr - OVERHEAD;
      c := allocatedHead;
      while c != 0 && c > n
        invariant k <= |alloc| && c == Elem(alloc, k) && forall i :: 0 <= i < k ==> alloc[i] > n
        decreases |alloc| - k
      {
        c := nodes[c].next;
        k := k + 1;
      }
      AboveIs(alloc, n, k);
      AboveMember(alloc, n);
      if c == 0 || c != n {
        c := 0;
      }
    }

    /** `free`: an allocated block becomes available and joins its neighbours; any other pointer is ignored. */
    method Free(ptr: int)
      requires Valid()
      modifies this
      ensures Valid() && start == old(start) && end == old(end)
      ensures var t := ptr - OVERHEAD;
              if t in old(alloc)
              then t in old(nodes) && alloc == Removed(old(alloc), t) && total == old(total) - old(nodes)[t].usize
              else nodes == old(nodes) && avail == old(avail) && alloc == old(alloc) && total == old(total)
      ensures Keeps(SizesOf(old(nodes)), SizesOf(nodes), alloc) && Keeps(UsesOf(old(nodes)), UsesOf(nodes), alloc)
    {
      hide Linked, Pool, SizesOf, UsesOf, Keeps, Removed, Used, Listed;
      KeepsSame(SizesOf(nodes), alloc);
      KeepsSame(UsesOf(nodes), alloc);
      NullNotAllocated(SizesOf(nodes), UsesOf(nodes), avail, alloc, start, end);
      if ptr == 0 {
        return;
      }
      var t := Find(ptr);
      if t == 0 {
        return;
      }
      Release(t);
      total := total - nodes[t].usize;
    }

    method Release(t: int)
      requires Sound({}) && Listed(UsesOf(nodes), alloc) && t in alloc && t in nodes
      modifies this`nodes, this`availableHead, this`allocatedHead, this`availLen, this`allocLen, this`avail, this`alloc
      ensures Sound({}) && alloc == Removed(old(alloc), t) && t in nodes && nodes[t].usize == old(nodes[t].usize)
      ensures Listed(UsesOf(nodes), alloc) && Used(UsesOf(nodes), alloc) == Used(UsesOf(old(nodes)), old(alloc)) - old(nodes[t].usize)
      ensures Keeps(SizesOf(old(nodes)), SizesOf(nodes), alloc) && Keeps(UsesOf(old(nodes)), UsesOf(nodes), alloc)
    {
      hide Linked, Pool, SizesOf, UsesOf, Keeps, Removed, Used, Listed, FreedList, FreedSizes;
      UsesAt(nodes);
      SizesAt(nodes);
      ReleasedPool(SizesOf(nodes), UsesOf(nodes), avail, alloc, t, start, end);
      KeepsSame(UsesOf(nodes), Removed(alloc, t));
      Delete(ALLOCATED, t);
      UsesAt(nodes);
      SizesAt(nodes);
      InsertAvailable(t);
      UsesAt(nodes);
    }
  }

  // ----- granting -----

  /** Every block of a list has a recorded user size. */
  ghost predicate Listed(u: Sizes, a: seq<int>) {
    forall n :: n in a ==> n in u
  }

  ghost predicate FitsAny(r: Sizes, s: seq<int>, size: nat) {
    exists m :: m in s && m in r && r[m] >= size
  }

  /** A smallest block that fits. */
  ghost predicate IsBest(r: Sizes, s: seq<int>, size: nat, b: int) {
    b in s && b in r && r[b] >= size && forall m :: m in s && m in r && r[m] >= size ==> r[b] <= r[m]
  }

  lemma BestIs(r: Sizes, s: seq<int>, size: nat, b: int)
    requires b == 0 ==> forall m :: m in s && m in r ==> r[m] < size
    requires b != 0 ==> b in s && b in r && r[b] >= size && forall m :: m in s && m in r && r[m] >= size ==> r[m] >= r[b]
    ensures b == 0 <==> !FitsAny(r, s, size)
    ensures b != 0 ==> IsBest(r, s, size, b)
  {}

  /** The memory after both headers are written; what was behind the block is kept. */
  function Placed(nodes: Memory, b: int, x: nat): Memory
    requires b in nodes && nodes[b].rsize >= x + OVERHEAD
  {
    var n, rest := b + OVERHEAD + x, nodes[b].rsize - x - OVERHEAD;
    var shortened := nodes[b := nodes[b].(rsize := x)];
    shortened[n := if n in shortened then shortened[n].(rsize := rest) else Node(rest, 0, 0)]
  }

  lemma PlacedSizes(nodes: Memory, b: int, x: nat)
    requires b in nodes && nodes[b].rsize >= x + OVERHEAD
    ensures SizesOf(Placed(nodes, b, x)) == Split(SizesOf(nodes), b, x) && b + OVERHEAD + x in Placed(nodes, b, x)
  {}

  lemma PlacedList(nodes: Memory, b: int, x: nat, head: int, s: seq<int>)
    requires b in nodes && nodes[b].rsize >= x + OVERHEAD && IsList(nodes, head, s) && b !in s && b + OVERHEAD + x !in s
    ensures IsList(Placed(nodes, b, x), head, s)
  {}

  lemma PlacedKeeps(nodes: Memory, b: int, x: nat, a: seq<int>)
    requires b in nodes && nodes[b].rsize >= x + OVERHEAD
    ensures Keeps(UsesOf(nodes), UsesOf(Placed(nodes, b, x)), a)
  {}

  /** No block is as large as the address space. */
  lemma SmallBlocks(r: Sizes, u: Sizes, s: seq<int>, a: seq<int>, extra: set<int>, start: int, end: int)
    requires Pool(r, u, s, a, extra, start, end)
    ensures forall m :: m in s ==> m in r && m != 0 && r[m] < MAXINT
  {
    var all := Set(s) + Set(a) + extra;
    forall m | m in s ensures m in r && m != 0 && r[m] < MAXINT {
      assert m in all;
      assert Follows(r, all, start, end, m);
    }
  }

  ghost predicate Keeps(r: Sizes, r': Sizes, s: seq<int>) {
    forall n :: n in s && n in r ==> n in r' && r'[n] == r[n]
  }

  /** `b` taken out of the available list is a loose block. */
  lemma TakenPool(r: Sizes, u: Sizes, s: seq<int>, a: seq<int>, b: int, start: int, end: int)
    requires Pool(r, u, s, a, {}, start, end) && b in s
    ensures Pool(r, u, Removed(s, b), a, {b}, start, end)
  {
    TakenTiles(r, s, Set(a), b);
    RemovedMeaning(s, b);
    assert Set(s) + Set(a) + {} == Set(s) + Set(a);
    hide Tiles, NoneAdjacent, Removed, Descending;
  }

  /** The pool after the rest of a carved block is freed. */
  lemma CarvedFreed(r1: Sizes, s: seq<int>, a: seq<int>, b: int, n: int, start: int, end: int)
    requires Freeable(r1, s, Set(a) + {b}, n, start, end) && Set(s) <= r1.Keys && NoneAdjacent(r1, Set(s))
    requires b !in a
    ensures var r2, s2 := FreedSizes(r1, s, n), FreedList(r1, s, n);
            Descending(s2) && Set(s2) !! Set(a) && {b} !! Set(s2) + Set(a) && Tiles(r2, Set(s2) + Set(a) + {b}, start, end) &&
            Set(s2) <= r2.Keys && NoneAdjacent(r2, Set(s2))
  {
    var loose, s2 := Set(a) + {b}, FreedList(r1, s, n);
    hide Freeable, Tiles, NoneAdjacent, Descending, FreedSizes, FreedList;
    FreedTiles(r1, s, loose, n, start, end);
    FreedNotAdjacent(r1, s, loose, n, start, end);
    assert Set(s2) + Set(a) + {b} == Set(s2) + loose;
    assert b !in Set(a);
    assert b in loose;
  }

  lemma FreedKeepsOthers(r: Sizes, r1: Sizes, s: seq<int>, others: set<int>, n: int, start: int, end: int)
    requires Freeable(r1, s, others, n, start, end)
    ensures forall m :: m in others && m in r1 ==> m in FreedSizes(r1, s, n) && FreedSizes(r1, s, n)[m] == r1[m]
  {
    forall m | m in others && m in r1 ensures m in FreedSizes(r1, s, n) && FreedSizes(r1, s, n)[m] == r1[m] {
      assert m in s ==> m in Set(s);
      FreedKeeps(r1, s, n, m);
    }
    hide Tiles, FreedSizes, Descending;
  }

  /** Carving a loose block: the rest becomes available, possibly joined to its neighbours. */
  lemma CarvedPool(r: Sizes, u: Sizes, s: seq<int>, a: seq<int>, b: int, x: nat, start: int, end: int)
    requires Pool(r, u, s, a, {b}, start, end) && b in r && r[b] >= x + OVERHEAD && x % 4 == 0
    ensures var n, r1 := b + OVERHEAD + x, Split(r, b, x);
            n !in s && n !in a && n != b && n != 0 && b !in s && b !in a && n in r1 && forall m :: m in s ==> m in r1
    ensures var n, r1 := b + OVERHEAD + x, Split(r, b, x);
            var r2, s2 := FreedSizes(r1, s, n), FreedList(r1, s, n);
            (forall u2 :: Keeps(u, u2, a) ==> Pool(r2, u2, s2, a, {b}, start, end)) && Keeps(r, r2, a) && b in r2 && r2[b] == x
  {
    hide Tiles, NoneAdjacent, Descending, FreedSizes, FreedList;
    LooseParts(r, u, s, a, b, start, end);
    Carved(r, s, a, b, x, start, end);
    var n, r1 := b + OVERHEAD + x, Split(r, b, x);
    CarvedFreed(r1, s, a, b, n, start, end);
    FreedKeepsOthers(r, r1, s, Set(a) + {b}, n, start, end);
    var r2 := FreedSizes(r1, s, n);
    assert b in Set(a) + {b};
    assert r1[b] == x;
    forall m | m in a ensures m in r2 && r2[m] == r[m] {
      assert m in Set(a) + {b};
    }
    hide Split, Freeable, Set;
  }

  lemma KeepsSame(r: Sizes, s: seq<int>)
    ensures Keeps(r, r, s)
  {}

  lemma KeepsThen(r: Sizes, r1: Sizes, r2: Sizes, s: seq<int>)
    requires Keeps(r, r1, s) && Keeps(r1, r2, s)
    ensures Keeps(r, r2, s)
  {}

  lemma ListedKeeps(u: Sizes, u1: Sizes, a: seq<int>)
    requires Listed(u, a) && Keeps(u, u1, a)
    ensures Listed(u1, a) && Used(u1, a) == Used(u, a)
  {
    UsedKeeps(u, u1, a);
  }

  lemma {:induction false} UsedKeeps(u: Sizes, u1: Sizes, a: seq<int>)
    requires Listed(u, a) && Listed(u1, a) && forall n :: n in a ==> u1[n] == u[n]
    ensures Used(u1, a) == Used(u, a)
    decreases |a|
  {
    if a != [] {
      assert a[0] in a;
      UsedKeeps(u, u1, a[1..]);
    }
  }

  /** Sizes are multiples of four, so a block that fits the request fits it aligned. */
  lemma BlocksAligned(r: Sizes, u: Sizes, s: seq<int>, a: seq<int>, start: int, end: int, b: int, size: nat)
    requires Pool(r, u, s, a, {}, start, end) && b in s && b in r && r[b] >= size
    ensures r[b] >= Align(size) && Align(size) % 4 == 0 && Align(size) >= size && b != 0
  {
    var all := Set(s) + Set(a) + {};
    assert b in all;
    assert Follows(r, all, start, end, b);
    hide Tiles;
  }

  lemma LooseParts(r: Sizes, u: Sizes, s: seq<int>, a: seq<int>, b: int, start: int, end: int)
    requires Pool(r, u, s, a, {b}, start, end)
    ensures b !in s && b !in a && Descending(a)
  {
    hide Tiles, NoneAdjacent, Descending;
    assert b !in Set(s) && b !in Set(a);
  }

  lemma GrantedNode(nodes: Memory, b: int, size: nat)
    requires b in nodes
    ensures SizesOf(nodes[b := nodes[b].(usize := size)]) == SizesOf(nodes)
    ensures UsesOf(nodes[b := nodes[b].(usize := size)]) == UsesOf(nodes)[b := size]
  {}

  lemma GrantedList(nodes: Memory, b: int, size: nat, head: int, s: seq<int>)
    requires b in nodes && IsList(nodes, head, s)
    ensures IsList(nodes[b := nodes[b].(usize := size)], head, s)
  {}

  lemma GrantedPool(r: Sizes, u: Sizes, s: seq<int>, a: seq<int>, b: int, size: nat, start: int, end: int)
    requires Pool(r, u, s, a, {b}, start, end) && b in r && size <= r[b] && Listed(u, a)
    ensures Pool(r, u[b := size], s, Inserted(a, b), {}, start, end)
    ensures Keeps(u, u[b := size], a) && Listed(u[b := size], Inserted(a, b))
    ensures Used(u[b := size], Inserted(a, b)) == Used(u, a) + size
  {
    LooseParts(r, u, s, a, b, start, end);
    InsertedMeaning(a, b);
    SetsAfter(a, b);
    var u1 := u[b := size];
    hide Tiles, NoneAdjacent, Descending, Inserted;
    UsedKeeps(u, u1, a);
    UsedInserted(u1, a, b);
    assert Set(s) + Set(Inserted(a, b)) + {} == Set(s) + Set(a) + {b};
  }

  lemma FirstPool(start: int, end: int, r: Sizes, u: Sizes)
    requires 0 < start && start + OVERHEAD <= end < LIMIT && (end - start) % 4 == 0
    requires r == map[start := end - start - OVERHEAD]
    ensures Pool(r, u, [start], [], {}, start, end) && Listed(u, []) && Used(u, []) == 0
  {
    assert Set([start]) + Set([]) + {} == {start};
    assert Follows(r, {start}, start, end, start);
  }

  lemma Positive(r: Sizes, u: Sizes, s: seq<int>, a: seq<int>, start: int, end: int, size: nat)
    requires Pool(r, u, s, a, {}, start, end)
    ensures forall b :: IsBest(r, s, size, b) ==> b > 0
  {
    var all := Set(s) + Set(a) + {};
    forall b | IsBest(r, s, size, b) ensures b > 0 {
      assert b in all;
      assert Follows(r, all, start, end, b);
    }
  }

  lemma NullNotAllocated(r: Sizes, u: Sizes, s: seq<int>, a: seq<int>, start: int, end: int)
    requires Pool(r, u, s, a, {}, start, end)
    ensures 0 - OVERHEAD !in a && 0 !in a
  {
    var all := Set(s) + Set(a) + {};
    forall n | n in a ensures n > 0 {
      assert n in all;
      assert Follows(r, all, start, end, n);
    }
  }

  /** Freeing an allocated block. */
  lemma ReleasedPool(r: Sizes, u: Sizes, s: seq<int>, a: seq<int>, t: int, start: int, end: int)
    requires Pool(r, u, s, a, {}, start, end) && Listed(u, a) && t in a && t in r
    ensures t in u && t !in s && t != 0 && t !in Removed(a, t) && (forall m :: m in s ==> m in r)
    ensures Listed(u, Removed(a, t)) && Used(u, Removed(a, t)) == Used(u, a) - u[t]
    ensures var r2, s2 := FreedSizes(r, s, t), FreedList(r, s, t);
            Pool(r2, u, s2, Removed(a, t), {}, start, end) && Keeps(r, r2, Removed(a, t))
  {
    hide Tiles, NoneAdjacent, Descending, FreedSizes, FreedList, Removed;
    RemovedMeaning(a, t);
    SetsAfter(a, t);
    UsedRemoved(u, a, t);
    NullNotAllocated(r, u, s, a, start, end);
    var others := Set(a) - {t};
    assert t in Set(a);
    assert Set(s) + Set(a) + {} == Set(s) + others + {t};
    assert Freeable(r, s, others, t, start, end) by {
      assert forall m :: m in s ==> m in Set(s);
    }
    FreedTiles(r, s, others, t, start, end);
    FreedNotAdjacent(r, s, others, t, start, end);
    FreedKeepsOthers(r, r, s, others, t, start, end);
    var r2, s2 := FreedSizes(r, s, t), FreedList(r, s, t);
    assert Set(s2) + Set(Removed(a, t)) + {} == Set(s2) + others;
    forall n | n in Removed(a, t) ensures n in r2 && r2[n] == r[n] {
      assert n in others;
    }
  }

  /** Once everything has been freed, the pool is one available block of the original size. */
  lemma AllFreed(r: Sizes, u: Sizes, s: seq<int>, start: int, end: int)
    requires Pool(r, u, s, [], {}, start, end)
    ensures s == [start] && start in r && r[start] == end - start - OVERHEAD
  {
    var all := Set(s) + Set([]) + {};
    assert all == Set(s);
    AllOne(r, all, start, end);
    assert forall n :: n in s <==> n in all;
    OnlyElement(s, start);
  }

  /** A tiling in which no two blocks are adjacent is one block. */
  lemma AllOne(r: Sizes, s: set<int>, start: int, end: int)
    requires Tiles(r, s, start, end) && NoneAdjacent(r, s)
    ensures After(r, start) == end && forall n :: n in s ==> n == start
  {
    assert Follows(r, s, start, end, start);
    assert After(r, start) !in s;
    forall n | n in s ensures n == start {
      assert Follows(r, s, start, end, n);
      assert n > start ==> Apart(r, start, n);
    }
  }

  lemma OnlyElement(s: seq<int>, x: int)
    requires Descending(s) && x in s && forall n :: n in s ==> n == x
    ensures s == [x]
  {
    assert forall i :: 0 <= i < |s| ==> s[i] in s;
    assert |s| > 1 ==> Elem(s, 0) > Elem(s, 1);
  }

  lemma UsesAt(nodes: Memory)
    ensures UsesOf(nodes).Keys == nodes.Keys && forall m :: m in nodes ==> UsesOf(nodes)[m] == nodes[m].usize
  {}

  /** What carving a loose block makes of the pool. */
  lemma Carved(r: Sizes, s: seq<int>, alloc: seq<int>, b: int, x: nat, start: int, end: int)
    requires Descending(s) && Set(s) !! Set(alloc) && b !in s && b !in alloc && 0 < start
    requires Tiles(r, Set(s) + Set(alloc) + {b}, start, end) && Set(s) <= r.Keys && NoneAdjacent(r, Set(s))
    requires b in r && r[b] >= x + OVERHEAD && x % 4 == 0
    ensures var n := b + OVERHEAD + x;
            n !in s && n !in alloc && n != b && n != 0
    ensures var n, r1 := b + OVERHEAD + x, Split(r, b, x);
            Freeable(r1, s, Set(alloc) + {b}, n, start, end) && Set(s) <= r1.Keys && NoneAdjacent(r1, Set(s)) &&
            forall m :: m in alloc ==> m in r1 && r1[m] == r[m]
  {
    var n, r1, all := b + OVERHEAD + x, Split(r, b, x), Set(s) + Set(alloc) + {b};
    SplitTiles(r, all, start, end, b, x);
    assert b in all && forall m :: m in s || m in alloc ==> m in all;
    assert Follows(r, all, start, end, b);
    assert all + {n} == Set(s) + (Set(alloc) + {b}) + {n};
    hide Tiles, Descending;
    assert n in Set(s) + (Set(alloc) + {b}) + {n};
    forall m | m in s ensures m in r1 && r1[m] == r[m] {
      assert m in all;
    }
  }

  /** Freeing changes no block outside the available list. */
  lemma FreedKeeps(r: Sizes, s: seq<int>, n: int, m: int)
    requires n in r && m in r && m != n && m !in s && forall x :: x in s ==> x in r
    ensures m in FreedSizes(r, s, n) && FreedSizes(r, s, n)[m] == r[m]
  {
    hide Above;
  }

  /** Taking a block out of the available list leaves the tiling as it is. */
  lemma TakenTiles(r: Sizes, s: seq<int>, others: set<int>, b: int)
    requires Descending(s) && b in s && Set(s) <= r.Keys && NoneAdjacent(r, Set(s)) && Set(s) !! others
    ensures Set(Removed(s, b)) + others + {b} == Set(s) + others && {b} !! Set(Removed(s, b)) + others
    ensures Set(Removed(s, b)) <= r.Keys && NoneAdjacent(r, Set(Removed(s, b)))
  {
    SetsAfter(s, b);
    hide Removed, Descending;
    assert b in Set(s);
  }

  lemma SizesAt(nodes: Memory)
    ensures SizesOf(nodes).Keys == nodes.Keys && forall m :: m in nodes ==> SizesOf(nodes)[m] == nodes[m].rsize
  {}

  /** What the walk found, in terms of the list. */
  lemma Neighbours(nodes: Memory, head: int, s: seq<int>, n: int, c: int, p: int)
    requires IsList(nodes, head, s) && Descending(s) && n in nodes
    requires c == Elem(s, Above(s, n)) && p == if Above(s, n) == 0 then head else s[Above(s, n) - 1]
    ensures n in SizesOf(nodes) && forall m :: m in s ==> m in SizesOf(nodes)
    ensures head != 0 && c != 0 <==> Above(s, n) < |s|
    ensures c != 0 ==> c in nodes && c == s[Above(s, n)]
    ensures c == p <==> Above(s, n) == 0
    ensures c != 0 && c in nodes && c + OVERHEAD + nodes[c].rsize == n <==> JoinsLower(SizesOf(nodes), s, n)
    ensures JoinsLower(SizesOf(nodes), s, n) && Above(s, n) == 0 ==> p == c
  {
    hide Above;
  }

  /** Freeing a block that joins the one below, in terms of the walk. */
  lemma LowerCase(r: Sizes, s: seq<int>, n: int, c: int, p: int)
    requires n in r && n !in s && Descending(s) && (forall m :: m in s ==> m in r) && JoinsLower(r, s, n)
    requires c == s[Above(s, n)] && p == if Above(s, n) == 0 then c else s[Above(s, n) - 1]
    ensures c in s && c in r && p in s && p in r && c in Merged(r, c, n) && p in Merged(r, c, n)
    ensures var m := Merged(r, c, n);
            if After(m, c) == p then FreedList(r, s, n) == Removed(s, p) && FreedSizes(r, s, n) == Merged(m, c, p)
            else FreedList(r, s, n) == s && FreedSizes(r, s, n) == m
  {
    hide Above, Removed;
  }

  /** Freeing a block that is linked in. */
  lemma LinkCase(r: Sizes, s: seq<int>, n: int, p: int)
    requires n in r && n !in s && Descending(s) && (forall m :: m in s ==> m in r) && !JoinsLower(r, s, n)
    requires Above(s, n) > 0 ==> p == s[Above(s, n) - 1]
    ensures Above(s, n) > 0 ==> p in Inserted(s, n) && p in s && p in r
    ensures if Above(s, n) > 0 && After(r, n) == p
            then FreedList(r, s, n) == Removed(Inserted(s, n), p) && FreedSizes(r, s, n) == Merged(r, n, p)
            else FreedList(r, s, n) == Inserted(s, n) && FreedSizes(r, s, n) == r
  {
    InsertedMeaning(s, n);
    hide Above, Removed, Inserted;
  }

  /** Only links of blocks in `s` differ. */
  ghost predicate SameLinks(nodes: Memory, nodes': Memory, s: seq<int>) {
    nodes.Keys <= nodes'.Keys && forall m :: m in nodes && m !in s ==> nodes'[m].next == nodes[m].next
  }

  lemma OtherList(nodes: Memory, nodes': Memory, s: seq<int>, head: int, t: seq<int>)
    requires SameLinks(nodes, nodes', s) && IsList(nodes, head, t) && forall n :: n in t ==> n !in s
    ensures IsList(nodes', head, t)
  {
    FrameList(nodes, nodes', head, t);
  }
}
