/** The longest-prefix-match binary trie of radix_tree.go, over 32-bit IPv4
    addresses walked most significant bit first.

    A missing child is `Nil`; the source's root always exists, and the model
    treats a `Nil` root like a root with no data and no children. `DataAt`
    reads the entry stored at the node a bit path leads to (the zero entry
    where there is no node) and is the vocabulary the properties are stated in. */
module Radix {
  import opened Bytes
  import opened Net

  datatype Trie = Nil | Node(data: RouteEntry, zero: Trie, one: Trie)

  const EMPTY: Trie := Node(ZERO_ROUTE, Nil, Nil)

  /** The first `n` bits of `addr`, most significant first. */
  function Path(addr: u32, n: nat): (r: seq<bool>)
    requires n <= 32
    ensures |r| == n
  {
    seq(n, k requires 0 <= k < n => Bit(addr, k + 1))
  }

  function Child(t: Trie, b: bool): Trie
  {
    if t.Nil? then Nil else if b then t.one else t.zero
  }

  /** The node a bit path leads to from `t`, or `Nil`. */
  function SubAt(t: Trie, path: seq<bool>): Trie
    decreases |path|
  {
    if |path| == 0 then t else SubAt(Child(t, path[0]), path[1..])
  }

  /** The entry stored at the node a path leads to; the zero entry if that
      node does not exist. */
  function DataAt(t: Trie, path: seq<bool>): RouteEntry
  {
    var n := SubAt(t, path);
    if n.Nil? then ZERO_ROUTE else n.data
  }

  /** `radixTreeAdd`, from depth `i`: creates the missing child for bit
      `i + 1` and descends, until depth `prefixLen`, where the entry is stored. */
  function AddFrom(t: Trie, prefix: u32, prefixLen: nat, i: nat, e: RouteEntry): Trie
    requires i <= prefixLen <= 32
    decreases prefixLen - i
  {
    var n := if t.Nil? then EMPTY else t;
    if i == prefixLen then n.(data := e)
    else if Bit(prefix, i + 1) then n.(one := AddFrom(n.one, prefix, prefixLen, i + 1, e))
    else n.(zero := AddFrom(n.zero, prefix, prefixLen, i + 1, e))
  }

  /** `radixTreeAdd(prefix, prefixLen, e)`. */
  function Add(t: Trie, prefix: u32, prefixLen: nat, e: RouteEntry): Trie
    requires prefixLen <= 32
  {
    AddFrom(t, prefix, prefixLen, 0, e)
  }

  /** `radixTreeSearch` from depth `i - 1` with `result` remembered so far:
      records a non-zero entry of the current node, then follows bit `i`,
      stopping at a missing child. The node reached after bit 32 is not read. */
  function SearchFrom(t: Trie, addr: u32, i: nat, result: RouteEntry): RouteEntry
    requires 1 <= i <= 33
    decreases 33 - i
  {
    if i > 32 || t.Nil? then result
    else
      var result' := if t.data != ZERO_ROUTE then t.data else result;
      var next := if Bit(addr, i) then t.one else t.zero;
      if next.Nil? then result' else SearchFrom(next, addr, i + 1, result')
  }

  /** `radixTreeSearch(addr)`. */
  function Search(t: Trie, addr: u32): RouteEntry
  {
    SearchFrom(t, addr, 1, ZERO_ROUTE)
  }

  // ---------------------------------------------------------------------
  // Reference meaning of the search: the deepest non-zero entry on the path

  /** The entry of the deepest node at depth `lo`..31 on `addr`'s path whose
      entry is non-zero, or the zero entry. */
  function LongestFrom(t: Trie, addr: u32, lo: nat): RouteEntry
    requires lo <= 32
    decreases 32 - lo
  {
    if lo == 32 then ZERO_ROUTE
    else
      var deeper := LongestFrom(t, addr, lo + 1);
      if deeper != ZERO_ROUTE then deeper else DataAt(t, Path(addr, lo))
  }

  lemma {:induction false} SubAtAppend(t: Trie, p: seq<bool>, b: bool)
    ensures SubAt(t, p + [b]) == Child(SubAt(t, p), b)
    decreases |p|
  {
    if |p| == 0 {
      assert p + [b] == [b];
    } else {
      assert (p + [b])[1..] == p[1..] + [b];
      SubAtAppend(Child(t, p[0]), p[1..], b);
    }
  }

  lemma {:induction false} SubAtNil(t: Trie, p: seq<bool>)
    requires t.Nil?
    ensures SubAt(t, p).Nil?
    decreases |p|
  {
    if |p| > 0 {
      SubAtNil(Child(t, p[0]), p[1..]);
    }
  }

  lemma PathStep(addr: u32, n: nat)
    requires n < 32
    ensures Path(addr, n + 1) == Path(addr, n) + [Bit(addr, n + 1)]
  {
  }

  /** Below a missing node every depth holds the zero entry. */
  lemma {:induction false} LongestBelowNil(t: Trie, addr: u32, lo: nat)
    requires lo <= 32
    requires lo > 0 ==> SubAt(t, Path(addr, lo)).Nil?
    requires lo == 0 ==> t.Nil?
    ensures LongestFrom(t, addr, lo) == ZERO_ROUTE
    decreases 32 - lo
  {
    if lo < 32 {
      PathStep(addr, lo);
      SubAtAppend(t, Path(addr, lo), Bit(addr, lo + 1));
      assert Path(addr, 0) == [];
      LongestBelowNil(t, addr, lo + 1);
    }
  }

  lemma {:induction false} SearchFromIsLongest(t: Trie, n: Trie, addr: u32, i: nat, result: RouteEntry)
    requires 1 <= i <= 33
    requires n == SubAt(t, Path(addr, i - 1)) && n.Node?
    ensures SearchFrom(n, addr, i, result)
         == (var l := LongestFrom(t, addr, i - 1); if l != ZERO_ROUTE then l else result)
    decreases 33 - i
  {
    if i <= 32 {
      var result' := if n.data != ZERO_ROUTE then n.data else result;
      var next := if Bit(addr, i) then n.one else n.zero;
      PathStep(addr, i - 1);
      SubAtAppend(t, Path(addr, i - 1), Bit(addr, i));
      assert next == SubAt(t, Path(addr, i));
      if next.Nil? {
        LongestBelowNil(t, addr, i);
      } else {
        SearchFromIsLongest(t, next, addr, i + 1, result');
      }
    }
  }

  /** The descending search returns exactly the reference longest match over
      depths 0..31. */
  lemma SearchIsLongestFrom(t: Trie, addr: u32)
    ensures Search(t, addr) == LongestFrom(t, addr, 0)
  {
    assert Path(addr, 0) == [];
    if t.Nil? {
      LongestBelowNil(t, addr, 0);
    } else {
      SearchFromIsLongest(t, t, addr, 1, ZERO_ROUTE);
    }
  }

  lemma {:induction false} LongestFromCharacterized(t: Trie, addr: u32, lo: nat)
    requires lo <= 32
    ensures var r := LongestFrom(t, addr, lo);
      && (r != ZERO_ROUTE ==>
            exists k :: lo <= k < 32 && DataAt(t, Path(addr, k)) == r
                        && forall j :: k < j < 32 ==> DataAt(t, Path(addr, j)) == ZERO_ROUTE)
      && (r == ZERO_ROUTE ==> forall k :: lo <= k < 32 ==> DataAt(t, Path(addr, k)) == ZERO_ROUTE)
    decreases 32 - lo
  {
    if lo < 32 {
      LongestFromCharacterized(t, addr, lo + 1);
    }
  }

  /** Search is longest-prefix match over depths 0..31: a non-zero result is
      the entry of some node on the address's path with no non-zero entry
      deeper (above depth 32); a zero result means every such node is empty. */
  lemma SearchIsLongestMatch(t: Trie, addr: u32)
    ensures var r := Search(t, addr);
      && (r != ZERO_ROUTE ==>
            exists k :: 0 <= k < 32 && DataAt(t, Path(addr, k)) == r
                        && forall j :: k < j < 32 ==> DataAt(t, Path(addr, j)) == ZERO_ROUTE)
      && (r == ZERO_ROUTE ==> forall k :: 0 <= k < 32 ==> DataAt(t, Path(addr, k)) == ZERO_ROUTE)
  {
    SearchIsLongestFrom(t, addr);
    LongestFromCharacterized(t, addr, 0);
  }

  lemma {:induction false} LongestFromOfDeepest(t: Trie, addr: u32, lo: nat, k: nat)
    requires lo <= k < 32
    requires DataAt(t, Path(addr, k)) != ZERO_ROUTE
    requires forall j :: k < j < 32 ==> DataAt(t, Path(addr, j)) == ZERO_ROUTE
    ensures LongestFrom(t, addr, lo) == DataAt(t, Path(addr, k))
    decreases 32 - lo
  {
    if lo < k {
      LongestFromOfDeepest(t, addr, lo + 1, k);
    } else {
      LongestFromCharacterized(t, addr, k + 1);
    }
  }

  /** The deepest non-zero entry on the path (above depth 32) is what the
      search returns: a more specific prefix always wins over a covering one. */
  lemma LongestPrefixWins(t: Trie, addr: u32, k: nat)
    requires k < 32
    requires DataAt(t, Path(addr, k)) != ZERO_ROUTE
    requires forall j :: k < j < 32 ==> DataAt(t, Path(addr, j)) == ZERO_ROUTE
    ensures Search(t, addr) == DataAt(t, Path(addr, k))
  {
    SearchIsLongestFrom(t, addr);
    LongestFromOfDeepest(t, addr, 0, k);
  }

  // ---------------------------------------------------------------------
  // What Add changes

  lemma EmptyHoldsNothing(q: seq<bool>)
    ensures DataAt(EMPTY, q) == ZERO_ROUTE
  {
    if |q| > 0 {
      SubAtNil(Child(EMPTY, q[0]), q[1..]);
    }
  }

  lemma DataAtStep(t: Trie, q: seq<bool>)
    requires |q| > 0
    ensures DataAt(t, q) == DataAt(Child(t, q[0]), q[1..])
  {
  }

  /** One step of `AddFrom`: the child on the prefix's next bit is the
      insertion one level down; every other child is the old one. */
  lemma AddFromChild(t: Trie, prefix: u32, prefixLen: nat, i: nat, e: RouteEntry, b: bool)
    requires i <= prefixLen <= 32
    ensures var n := if t.Nil? then EMPTY else t;
      Child(AddFrom(t, prefix, prefixLen, i, e), b)
        == if i < prefixLen && b == Bit(prefix, i + 1) then AddFrom(Child(n, b), prefix, prefixLen, i + 1, e)
           else Child(n, b)
  {
  }

  /** A non-empty path is on the prefix's path from depth `i` exactly when
      its first bit is the prefix's next bit and the rest is on the path from
      depth `i + 1`. */
  lemma PathSuffixStep(prefix: u32, prefixLen: nat, i: nat, q: seq<bool>)
    requires i < prefixLen <= 32 && |q| > 0
    ensures q == Path(prefix, prefixLen)[i..]
        <==> q[0] == Bit(prefix, i + 1) && q[1..] == Path(prefix, prefixLen)[i + 1..]
  {
    var path := Path(prefix, prefixLen)[i..];
    assert path[0] == Bit(prefix, i + 1);
    assert path[1..] == Path(prefix, prefixLen)[i + 1..];
  }

  lemma {:induction false} AddFromDataAt(t: Trie, prefix: u32, prefixLen: nat, i: nat, e: RouteEntry, q: seq<bool>)
    requires i <= prefixLen <= 32
    ensures DataAt(AddFrom(t, prefix, prefixLen, i, e), q)
         == if q == Path(prefix, prefixLen)[i..] then e else DataAt(t, q)
    decreases prefixLen - i
  {
    var n := if t.Nil? then EMPTY else t;
    var r := AddFrom(t, prefix, prefixLen, i, e);
    assert DataAt(n, q) == DataAt(t, q) by {
      if t.Nil? {
        EmptyHoldsNothing(q);
        SubAtNil(t, q);
      }
    }
    if |q| == 0 {
      assert DataAt(r, q) == r.data;
    } else {
      DataAtStep(r, q);
      DataAtStep(n, q);
      AddFromChild(t, prefix, prefixLen, i, e, q[0]);
      if i < prefixLen {
        PathSuffixStep(prefix, prefixLen, i, q);
        if q[0] == Bit(prefix, i + 1) {
          AddFromDataAt(Child(n, q[0]), prefix, prefixLen, i + 1, e, q[1..]);
        }
      }
    }
  }

  /** Add stores `e` at the node of the prefix's first `prefixLen` bits and
      leaves the entry read at every other path unchanged (created nodes hold
      the zero entry). */
  lemma AddDataAt(t: Trie, prefix: u32, prefixLen: nat, e: RouteEntry, q: seq<bool>)
    requires prefixLen <= 32
    ensures DataAt(Add(t, prefix, prefixLen, e), q)
         == if q == Path(prefix, prefixLen) then e else DataAt(t, q)
  {
    AddFromDataAt(t, prefix, prefixLen, 0, e, q);
    assert Path(prefix, prefixLen)[0..] == Path(prefix, prefixLen);
  }

  lemma {:induction false} AddFromIgnoresLowBits(t: Trie, p: u32, p': u32, prefixLen: nat, i: nat, e: RouteEntry)
    requires i <= prefixLen <= 32
    requires forall k :: i < k <= prefixLen ==> Bit(p, k) == Bit(p', k)
    ensures AddFrom(t, p, prefixLen, i, e) == AddFrom(t, p', prefixLen, i, e)
    decreases prefixLen - i
  {
    var n := if t.Nil? then EMPTY else t;
    if i < prefixLen {
      AddFromIgnoresLowBits(n.one, p, p', prefixLen, i + 1, e);
      AddFromIgnoresLowBits(n.zero, p, p', prefixLen, i + 1, e);
    }
  }

  /** Only the first `prefixLen` bits of the prefix matter to Add. */
  lemma AddIgnoresLowBits(t: Trie, p: u32, p': u32, prefixLen: nat, e: RouteEntry)
    requires prefixLen <= 32
    requires Path(p, prefixLen) == Path(p', prefixLen)
    ensures Add(t, p, prefixLen, e) == Add(t, p', prefixLen, e)
  {
    forall k | 0 < k <= prefixLen
      ensures Bit(p, k) == Bit(p', k)
    {
      assert Path(p, prefixLen)[k - 1] == Path(p', prefixLen)[k - 1];
    }
    AddFromIgnoresLowBits(t, p, p', prefixLen, 0, e);
  }

  lemma {:induction false} LongestFromUnchanged(t: Trie, t': Trie, addr: u32, lo: nat)
    requires lo <= 32
    requires forall k :: lo <= k < 32 ==> DataAt(t, Path(addr, k)) == DataAt(t', Path(addr, k))
    ensures LongestFrom(t, addr, lo) == LongestFrom(t', addr, lo)
    decreases 32 - lo
  {
    if lo < 32 {
      LongestFromUnchanged(t, t', addr, lo + 1);
    }
  }

  /** A /32 entry is never returned: adding one changes no search result,
      because the search never reads the node reached after the 32nd bit. */
  lemma SlashThirtyTwoIsInvisible(t: Trie, prefix: u32, e: RouteEntry, addr: u32)
    ensures Search(Add(t, prefix, 32, e), addr) == Search(t, addr)
  {
    var t' := Add(t, prefix, 32, e);
    forall k | 0 <= k < 32
      ensures DataAt(t', Path(addr, k)) == DataAt(t, Path(addr, k))
    {
      AddDataAt(t, prefix, 32, e, Path(addr, k));
    }
    SearchIsLongestFrom(t, addr);
    SearchIsLongestFrom(t', addr);
    LongestFromUnchanged(t', t, addr, 0);
  }

  /** Storing the zero entry is the same as storing nothing: the search cannot
      tell it from "no route". */
  lemma ZeroEntryIsNoRoute(t: Trie, prefix: u32, prefixLen: nat, addr: u32)
    requires prefixLen <= 32
    requires DataAt(t, Path(prefix, prefixLen)) == ZERO_ROUTE
    ensures Search(Add(t, prefix, prefixLen, ZERO_ROUTE), addr) == Search(t, addr)
  {
    var t' := Add(t, prefix, prefixLen, ZERO_ROUTE);
    forall k | 0 <= k < 32
      ensures DataAt(t', Path(addr, k)) == DataAt(t, Path(addr, k))
    {
      AddDataAt(t, prefix, prefixLen, ZERO_ROUTE, Path(addr, k));
    }
    SearchIsLongestFrom(t, addr);
    SearchIsLongestFrom(t', addr);
    LongestFromUnchanged(t', t, addr, 0);
  }

  // ---------------------------------------------------------------------
  // The routes of chapter2.go

  /** The trie of chapter2.go's route to host2, 192.168.2.0/24 (written there
      as `0xc0a80202 & 0xffffff00`), with a covering 192.168.0.0/16 added. */
  function CoveredTrie(a: RouteEntry, b: RouteEntry): Trie
  {
    Add(Add(EMPTY, 0xc0a8_0200, 24, a), 0xc0a8_0000, 16, b)
  }

  lemma CoveredTrieData(a: RouteEntry, b: RouteEntry, q: seq<bool>)
    ensures DataAt(CoveredTrie(a, b), q)
         == if q == Path(0xc0a8_0000, 16) then b else if q == Path(0xc0a8_0200, 24) then a else ZERO_ROUTE
  {
    var t1 := Add(EMPTY, 0xc0a8_0200, 24, a);
    AddDataAt(t1, 0xc0a8_0000, 16, b, q);
    AddDataAt(EMPTY, 0xc0a8_0200, 24, a, q);
    EmptyHoldsNothing(q);
  }

  /** Addresses that agree on their first `n` bits share the path of
      length `n`. */
  lemma PathsAgree(x: u32, y: u32, n: nat)
    requires n <= 32 && forall k :: 1 <= k <= n ==> Bit(x, k) == Bit(y, k)
    ensures Path(x, n) == Path(y, n)
  {
  }

  /** 192.168.2.5 lies on the path of 192.168.2.0/24. */
  lemma PathToTwoFive(x: u32, y: u32)
    requires x == 0xc0a8_0205 && y == 0xc0a8_0200
    ensures Path(x, 24) == Path(y, 24)
  {
    assert Bit(x, 1) == Bit(y, 1) && Bit(x, 2) == Bit(y, 2) && Bit(x, 3) == Bit(y, 3) && Bit(x, 4) == Bit(y, 4) && Bit(x, 5) == Bit(y, 5) && Bit(x, 6) == Bit(y, 6);
    assert Bit(x, 7) == Bit(y, 7) && Bit(x, 8) == Bit(y, 8) && Bit(x, 9) == Bit(y, 9) && Bit(x, 10) == Bit(y, 10) && Bit(x, 11) == Bit(y, 11) && Bit(x, 12) == Bit(y, 12);
    assert Bit(x, 13) == Bit(y, 13) && Bit(x, 14) == Bit(y, 14) && Bit(x, 15) == Bit(y, 15) && Bit(x, 16) == Bit(y, 16) && Bit(x, 17) == Bit(y, 17) && Bit(x, 18) == Bit(y, 18);
    assert Bit(x, 19) == Bit(y, 19) && Bit(x, 20) == Bit(y, 20) && Bit(x, 21) == Bit(y, 21) && Bit(x, 22) == Bit(y, 22) && Bit(x, 23) == Bit(y, 23) && Bit(x, 24) == Bit(y, 24);
    forall k | 1 <= k <= 24 ensures Bit(x, k) == Bit(y, k) {
      assert k in {1, 2, 3, 4, 5, 6, 7, 8, 9, 10, 11, 12, 13, 14, 15, 16, 17, 18, 19, 20, 21, 22, 23, 24};
    }
    PathsAgree(x, y, 24);
  }

  /** 192.168.5.5 lies on the path of 192.168.0.0/16. */
  lemma PathToFiveFive(x: u32, y: u32)
    requires x == 0xc0a8_0505 && y == 0xc0a8_0000
    ensures Path(x, 16) == Path(y, 16)
  {
    assert Bit(x, 1) == Bit(y, 1) && Bit(x, 2) == Bit(y, 2) && Bit(x, 3) == Bit(y, 3) && Bit(x, 4) == Bit(y, 4) && Bit(x, 5) == Bit(y, 5) && Bit(x, 6) == Bit(y, 6);
    assert Bit(x, 7) == Bit(y, 7) && Bit(x, 8) == Bit(y, 8) && Bit(x, 9) == Bit(y, 9) && Bit(x, 10) == Bit(y, 10) && Bit(x, 11) == Bit(y, 11) && Bit(x, 12) == Bit(y, 12);
    assert Bit(x, 13) == Bit(y, 13) && Bit(x, 14) == Bit(y, 14) && Bit(x, 15) == Bit(y, 15) && Bit(x, 16) == Bit(y, 16);
    forall k | 1 <= k <= 16 ensures Bit(x, k) == Bit(y, k) {
      assert k in {1, 2, 3, 4, 5, 6, 7, 8, 9, 10, 11, 12, 13, 14, 15, 16};
    }
    PathsAgree(x, y, 16);
  }

  /** 192.168.2.5 gets the /24 entry although the /16 also covers it. */
  lemma CoveredTrieMoreSpecific(a: RouteEntry, b: RouteEntry)
    requires a != ZERO_ROUTE && b != ZERO_ROUTE
    ensures Search(CoveredTrie(a, b), 0xc0a8_0205) == a
  {
    var x: u32 := 0xc0a8_0205;
    PathToTwoFive(x, 0xc0a8_0200);
    forall k | 24 < k < 32 ensures DataAt(CoveredTrie(a, b), Path(x, k)) == ZERO_ROUTE {
      CoveredTrieData(a, b, Path(x, k));
    }
    CoveredTrieData(a, b, Path(x, 24));
    LongestPrefixWins(CoveredTrie(a, b), x, 24);
  }

  /** 192.168.5.5 gets the covering /16 entry. */
  lemma CoveredTrieCovering(a: RouteEntry, b: RouteEntry)
    requires a != ZERO_ROUTE && b != ZERO_ROUTE
    ensures Search(CoveredTrie(a, b), 0xc0a8_0505) == b
  {
    var y: u32 := 0xc0a8_0505;
    PathToFiveFive(y, 0xc0a8_0000);
    assert Bit(y, 22) != Bit(0xc0a8_0200, 22);
    assert Path(y, 24)[21] != Path(0xc0a8_0200, 24)[21];
    forall k | 16 < k < 32 ensures DataAt(CoveredTrie(a, b), Path(y, k)) == ZERO_ROUTE {
      CoveredTrieData(a, b, Path(y, k));
    }
    CoveredTrieData(a, b, Path(y, 16));
    LongestPrefixWins(CoveredTrie(a, b), y, 16);
  }

  /** Addresses that differ in the first bit share no non-empty path. */
  lemma FirstBitSeparates(x: u32, y: u32, n: nat, m: nat)
    requires 0 < n <= 32 && 0 < m <= 32 && Bit(x, 1) != Bit(y, 1)
    ensures Path(x, n) != Path(y, m)
  {
    assert Path(x, n)[0] != Path(y, m)[0];
  }

  /** No prefix of 10.0.0.1 leads to a stored entry of CoveredTrie. */
  lemma CoveredTrieMissesTen(a: RouteEntry, b: RouteEntry, k: nat)
    requires k < 32
    ensures DataAt(CoveredTrie(a, b), Path(0x0a00_0001, k)) == ZERO_ROUTE
  {
    CoveredTrieData(a, b, Path(0x0a00_0001, k));
    if k == 16 {
      FirstBitSeparates(0x0a00_0001, 0xc0a8_0000, 16, 16);
    } else if k == 24 {
      FirstBitSeparates(0x0a00_0001, 0xc0a8_0200, 24, 24);
    }
  }

  /** 10.0.0.1 leaves both prefixes at the first bit and gets no route. */
  lemma CoveredTrieNoRoute(a: RouteEntry, b: RouteEntry)
    ensures Search(CoveredTrie(a, b), 0x0a00_0001) == ZERO_ROUTE
  {
    forall k | 0 <= k < 32 ensures DataAt(CoveredTrie(a, b), Path(0x0a00_0001, k)) == ZERO_ROUTE {
      CoveredTrieMissesTen(a, b, k);
    }
    SearchIsLongestMatch(CoveredTrie(a, b), 0x0a00_0001);
  }
}
