/**
 * The intrusive chained hash table with progressive resizing.
 *
 * A bucket's chain of `next` pointers is represented by the sequence of the
 * nodes it links, head first; a node that is in no chain has `next == NULL`.
 * The address of the link that points to a node (what `h_lookup` returns) is
 * represented by the node's bucket and its position in that chain.
 */
module HashTable {
  import opened Opt

  /** One more than the largest `uint64_t`. */
  const U64Limit: nat := 0x1_0000_0000_0000_0000

  type u64 = n: int | 0 <= n < U64Limit

  /** `k_max_load_factor`: average chain length that triggers a resize. */
  const MaxLoadFactor: nat := 8

  /** `k_resizing_work`: most nodes one call moves from the older table to the newer. */
  const ResizingWork: nat := 128

  /** Capacity of the first table `hm_insert` allocates. */
  const InitialCap: nat := 4

  /** `a & b` on unsigned integers, one bit at a time from the lowest. */
  function BitAnd(a: nat, b: nat): (r: nat)
    ensures r <= a && r <= b
    decreases a
  {
    if a == 0 || b == 0 then 0 else 2 * BitAnd(a / 2, b / 2) + (a % 2) * (b % 2)
  }

  /** The test `n > 0 && ((n - 1) & n) == 0` of `h_init`. */
  predicate PowerOfTwoSize(n: nat) {
    n > 0 && BitAnd(n - 1, n) == 0
  }

  function Pow2(k: nat): (r: nat)
    ensures r > 0
  {
    if k == 0 then 1 else 2 * Pow2(k - 1)
  }

  lemma {:induction false} MulStep(d: nat, a: nat, b: nat)
    requires a < b
    ensures d * a + d <= d * b
    decreases b - a
  {
    if b > a + 1 {
      MulStep(d, a, b - 1);
      assert d * b == d * (b - 1) + d;
    } else {
      assert d * b == d * a + d;
    }
  }

  /** `h == d * q + r` with `0 <= r < d` fixes the remainder. */
  lemma ModOfSplit(h: nat, d: nat, q: nat, r: nat)
    requires d > 0 && 0 <= r < d && h == d * q + r
    ensures h % d == r
  {
    var q', r' := h / d, h % d;
    assert h == d * q' + r';
    if q' < q {
      MulStep(d, q', q);
      assert false;
    } else if q' > q {
      MulStep(d, q, q');
      assert false;
    }
  }

  /** One step of `BitAnd` against a mask of low one-bits. */
  lemma BitAndLowOnes(h: nat, m: nat)
    requires h > 0 && m > 0
    ensures BitAnd(h, 2 * m - 1) == 2 * BitAnd(h / 2, m - 1) + h % 2
  {
    assert (2 * m - 1) / 2 == m - 1 && (2 * m - 1) % 2 == 1;
  }

  /** Halving the dividend and doubling the divisor: the remainder modulo `2m` from the one modulo `m`. */
  lemma ModOfDouble(h: nat, m: nat)
    requires m > 0
    ensures h % (2 * m) == 2 * ((h / 2) % m) + h % 2
  {
    var q, r := (h / 2) / m, (h / 2) % m;
    assert h / 2 == m * q + r;
    assert h == 2 * (h / 2) + h % 2;
    assert (2 * m) * q == 2 * (m * q);
    ModOfSplit(h, 2 * m, q, 2 * r + h % 2);
  }

  /** Masking with `2^k - 1` keeps the remainder modulo `2^k`: the slot is the hash's low `k` bits. */
  lemma {:induction false} MaskIsModulo(h: nat, k: nat)
    ensures BitAnd(h, Pow2(k) - 1) == h % Pow2(k)
  {
    if k == 0 {
      assert BitAnd(h, 0) == 0;
    } else if h == 0 {
      assert BitAnd(0, Pow2(k) - 1) == 0;
    } else {
      MaskIsModulo(h / 2, k - 1);
      MaskStep(h, Pow2(k - 1));
    }
  }

  lemma MaskStep(h: nat, m: nat)
    requires h > 0 && m > 0
    requires BitAnd(h / 2, m - 1) == (h / 2) % m
    ensures BitAnd(h, 2 * m - 1) == h % (2 * m)
  {
    BitAndLowOnes(h, m);
    ModOfDouble(h, m);
  }

  /** The capacities `hm_start_resizing` produces stay powers of two. */
  lemma DoubleIsPowerOfTwo(n: nat)
    requires PowerOfTwoSize(n)
    ensures PowerOfTwoSize(2 * n)
  {
    assert (2 * n - 1) / 2 == n - 1 && (2 * n - 1) % 2 == 1 && (2 * n) / 2 == n;
  }

  lemma {:induction false} BitAndSelf(m: nat)
    ensures BitAnd(m, m) == m
    decreases m
  {
    if m > 0 {
      BitAndSelf(m / 2);
      assert (m % 2) * (m % 2) == m % 2;
    }
  }

  /** The sizes `h_init` accepts are exactly the powers of two. */
  lemma PowerOfTwoSizeIsPow2(n: nat)
    ensures PowerOfTwoSize(n) <==> exists k :: n == Pow2(k)
  {
    if PowerOfTwoSize(n) {
      var k := ExponentOf(n);
    }
    if k :| n == Pow2(k) {
      Pow2IsPowerOfTwoSize(k);
    }
  }

  lemma {:induction false} ExponentOf(n: nat) returns (k: nat)
    requires PowerOfTwoSize(n)
    ensures n == Pow2(k)
    decreases n
  {
    if n == 1 {
      return 0;
    }
    if n % 2 == 1 {
      assert (n - 1) / 2 == n / 2;
      BitAndSelf(n / 2);
      assert false;
    }
    assert (n - 1) / 2 == n / 2 - 1 && (n - 1) % 2 == 1;
    assert BitAnd(n - 1, n) == 2 * BitAnd(n / 2 - 1, n / 2);
    k := ExponentOf(n / 2);
    k := k + 1;
  }

  lemma {:induction false} Pow2IsPowerOfTwoSize(k: nat)
    ensures PowerOfTwoSize(Pow2(k))
  {
    if k == 0 {
      assert BitAnd(0, 1) == 0;
    } else {
      Pow2IsPowerOfTwoSize(k - 1);
      DoubleIsPowerOfTwo(Pow2(k - 1));
    }
  }

  /** For the power-of-two capacities the table uses, the slot `h_code & mask` is the hash code modulo the capacity. */
  lemma SlotIsModulo(hCode: u64, mask: nat)
    requires PowerOfTwoSize(mask + 1)
    ensures Slot(hCode, mask) == hCode % (mask + 1)
  {
    PowerOfTwoSizeIsPow2(mask + 1);
    var k :| mask + 1 == Pow2(k);
    MaskIsModulo(hCode, k);
  }

  lemma InitialCapIsPowerOfTwo()
    ensures PowerOfTwoSize(InitialCap)
  {
    assert BitAnd(0, 1) == 0;
    assert BitAnd(1, 2) == 2 * BitAnd(0, 1) + 0;
    assert BitAnd(3, 4) == 2 * BitAnd(1, 2) + 0;
  }

  /** `HNode`: the hash code set by the caller, and the entry it is embedded in. */
  datatype HNode<K> = HNode(hCode: u64, entry: K)

  /** The slot of a hash code: `h_code & mask`. */
  function Slot(hCode: u64, mask: nat): (i: nat)
    ensures i <= mask
  {
    BitAnd(hCode, mask)
  }

  /**
   * What `h_lookup` compares: equal hash codes and the caller's `eq`. A
   * node that matches lies in the key's slot, whatever the capacity.
   */
  function Matches<K>(node: HNode<K>, key: HNode<K>, eq: (HNode<K>, HNode<K>) -> bool): (b: bool)
    ensures b ==> eq(node, key) && forall mask: nat :: Slot(node.hCode, mask) == Slot(key.hCode, mask)
  {
    node.hCode == key.hCode && eq(node, key)
  }

  /** No node of `m` matches the key. */
  ghost predicate NoMatch<K>(m: multiset<HNode<K>>, key: HNode<K>, eq: (HNode<K>, HNode<K>) -> bool) {
    forall x :: x in m ==> !Matches(x, key, eq)
  }

  lemma NoMatchUnion<K>(a: multiset<HNode<K>>, b: multiset<HNode<K>>, key: HNode<K>, eq: (HNode<K>, HNode<K>) -> bool)
    ensures NoMatch(a + b, key, eq) <==> NoMatch(a, key, eq) && NoMatch(b, key, eq)
  {
  }

  /** Every node a bucket array holds, chain by chain. */
  ghost function Elems<K>(buckets: seq<seq<HNode<K>>>): multiset<HNode<K>> {
    if buckets == [] then multiset{} else multiset(buckets[0]) + Elems(buckets[1..])
  }

  /** Every node of bucket `i` hashes to slot `i`. */
  ghost predicate Hashed<K>(buckets: seq<seq<HNode<K>>>, mask: nat) {
    forall i, j :: 0 <= i < |buckets| && 0 <= j < |buckets[i]| ==> Slot(buckets[i][j].hCode, mask) == i
  }

  /** Replacing one chain replaces its nodes and keeps every other chain's. */
  lemma {:induction false} ElemsUpdate<K>(buckets: seq<seq<HNode<K>>>, i: nat, chain: seq<HNode<K>>)
    requires i < |buckets|
    ensures Elems(buckets[i := chain]) + multiset(buckets[i]) == Elems(buckets) + multiset(chain)
  {
    var updated := buckets[i := chain];
    if i > 0 {
      ElemsUpdate(buckets[1..], i - 1, chain);
      assert updated[0] == buckets[0];
      assert updated[1..] == buckets[1..][i - 1 := chain];
      assert buckets[1..][i - 1] == buckets[i];
      calc {
        Elems(updated) + multiset(buckets[i]);
        multiset(buckets[0]) + (Elems(buckets[1..][i - 1 := chain]) + multiset(buckets[1..][i - 1]));
        multiset(buckets[0]) + (Elems(buckets[1..]) + multiset(chain));
        Elems(buckets) + multiset(chain);
      }
    } else {
      assert updated[1..] == buckets[1..];
    }
  }

  /** Replacing one chain by a chain of nodes of that slot keeps every node in its own slot. */
  lemma HashedUpdate<K>(buckets: seq<seq<HNode<K>>>, mask: nat, i: nat, chain: seq<HNode<K>>)
    requires i < |buckets| && Hashed(buckets, mask)
    requires forall j :: 0 <= j < |chain| ==> Slot(chain[j].hCode, mask) == i
    ensures Hashed(buckets[i := chain], mask)
  {
  }

  /** The chain after `*from = node->next` unlinks its `i`-th node. */
  function Unlink<K>(chain: seq<HNode<K>>, i: nat): (r: seq<HNode<K>>)
    requires i < |chain|
    ensures |r| == |chain| - 1
    ensures forall j :: 0 <= j < i ==> r[j] == chain[j]
    ensures forall j :: i <= j < |r| ==> r[j] == chain[j + 1]
  {
    chain[..i] + chain[i + 1..]
  }

  /** The position of the first node of `chain` that matches the key; `|chain|` when none does. */
  function FirstMatch<K>(chain: seq<HNode<K>>, key: HNode<K>, eq: (HNode<K>, HNode<K>) -> bool): (i: nat)
    ensures i <= |chain|
    ensures i < |chain| ==> Matches(chain[i], key, eq)
    ensures forall j :: 0 <= j < i ==> !Matches(chain[j], key, eq)
  {
    if chain == [] then 0
    else if Matches(chain[0], key, eq) then 0
    else 1 + FirstMatch(chain[1..], key, eq)
  }

  /** A matching position with no match before it is the first match. */
  lemma {:induction false} FirstMatchAt<K>(chain: seq<HNode<K>>, key: HNode<K>, eq: (HNode<K>, HNode<K>) -> bool, i: nat)
    requires i <= |chain| && (i < |chain| ==> Matches(chain[i], key, eq))
    requires forall j :: 0 <= j < i ==> !Matches(chain[j], key, eq)
    ensures FirstMatch(chain, key, eq) == i
  {
    if chain != [] && i > 0 {
      FirstMatchAt(chain[1..], key, eq, i - 1);
    }
  }

  /** The node `h_lookup` finds in the chains `b`: the first match in the key's chain, if any. */
  ghost function FirstIn<K>(b: seq<seq<HNode<K>>>, mask: nat, key: HNode<K>,
                            eq: (HNode<K>, HNode<K>) -> bool): (r: Option<HNode<K>>)
    ensures r.Some? ==> Slot(key.hCode, mask) < |b| && r.value in b[Slot(key.hCode, mask)] && Matches(r.value, key, eq)
    ensures r.None? && Slot(key.hCode, mask) < |b| ==> NoMatch(multiset(b[Slot(key.hCode, mask)]), key, eq)
  {
    var s := Slot(key.hCode, mask);
    if s < |b| && FirstMatch(b[s], key, eq) < |b[s]| then Some(b[s][FirstMatch(b[s], key, eq)]) else None
  }

  /**
   * What popping the key from one generation's chains `before` left in
   * `after`: nothing, when `r` is `None`; otherwise `r` is the first node of
   * the key's chain that matches it, and it alone is unlinked.
   */
  ghost predicate PoppedFirst<K>(before: seq<seq<HNode<K>>>, after: seq<seq<HNode<K>>>, mask: nat,
                                 key: HNode<K>, eq: (HNode<K>, HNode<K>) -> bool, r: Option<HNode<K>>) {
    && (r.None? ==> after == before)
    && (r.Some? ==>
          var s := Slot(key.hCode, mask);
          && s < |before|
          && FirstMatch(before[s], key, eq) < |before[s]|
          && r.value == before[s][FirstMatch(before[s], key, eq)]
          && after == before[s := Unlink(before[s], FirstMatch(before[s], key, eq))])
  }

  /** Unlinking loses exactly the unlinked node, and the others stay in the same slot. */
  lemma UnlinkKeepsOthers<K>(chain: seq<HNode<K>>, i: nat, mask: nat, slot: nat)
    requires i < |chain|
    requires forall j :: 0 <= j < |chain| ==> Slot(chain[j].hCode, mask) == slot
    ensures multiset(Unlink(chain, i)) + multiset{chain[i]} == multiset(chain)
    ensures forall j :: 0 <= j < |Unlink(chain, i)| ==> Slot(Unlink(chain, i)[j].hCode, mask) == slot
  {
    assert chain == chain[..i] + [chain[i]] + chain[i + 1..];
  }

  /** With the chains before `pos` empty, a non-empty table still has a slot at or after `pos`. */
  lemma CursorInBounds<K>(buckets: seq<seq<HNode<K>>>, pos: nat)
    requires pos <= |buckets|
    requires forall i :: 0 <= i < pos ==> buckets[i] == []
    requires |Elems(buckets)| > 0
    ensures pos < |buckets|
  {
    ElemsAfterEmptyPrefix(buckets, pos);
  }

  lemma MultisetCancel<T>(a: multiset<T>, b: multiset<T>, x: multiset<T>)
    requires a + x == b + x
    ensures a == b
  {
    assert forall e :: a[e] == (a + x)[e] - x[e];
  }

  /** A node is held by the array exactly when some chain holds it. */
  lemma {:induction false} ElemsHas<K>(buckets: seq<seq<HNode<K>>>, x: HNode<K>)
    ensures x in Elems(buckets) <==> exists i :: 0 <= i < |buckets| && x in buckets[i]
  {
    if buckets != [] {
      ElemsHas(buckets[1..], x);
      if x in Elems(buckets[1..]) {
        var i :| 0 <= i < |buckets[1..]| && x in buckets[1..][i];
        assert x in buckets[i + 1];
      }
      forall i | 0 <= i < |buckets| && x in buckets[i]
        ensures x in Elems(buckets)
      {
        if i > 0 {
          assert x in buckets[1..][i - 1];
        }
      }
    }
  }

  /** Chains that are all empty hold nothing. */
  lemma {:induction false} ElemsOfEmptyChains<K>(buckets: seq<seq<HNode<K>>>)
    requires forall i :: 0 <= i < |buckets| ==> buckets[i] == []
    ensures Elems(buckets) == multiset{}
  {
    if buckets != [] {
      ElemsOfEmptyChains(buckets[1..]);
    }
  }

  /** Empty leading chains contribute nothing: the nodes lie at or after the first `pos` chains. */
  lemma {:induction false} ElemsAfterEmptyPrefix<K>(buckets: seq<seq<HNode<K>>>, pos: nat)
    requires pos <= |buckets|
    requires forall i :: 0 <= i < pos ==> buckets[i] == []
    ensures Elems(buckets) == Elems(buckets[pos..])
  {
    if pos > 0 {
      ElemsAfterEmptyPrefix(buckets[1..], pos - 1);
      assert buckets[1..][pos - 1..] == buckets[pos..];
    }
  }

  /** With every node in the chain of its own slot, a key's matches all lie in the key's slot. */
  lemma MatchesLieInSlot<K>(buckets: seq<seq<HNode<K>>>, mask: nat, key: HNode<K>,
                            eq: (HNode<K>, HNode<K>) -> bool)
    requires |buckets| == mask + 1 && Hashed(buckets, mask)
    ensures !NoMatch(Elems(buckets), key, eq)
        <==> (exists j :: 0 <= j < |buckets[Slot(key.hCode, mask)]|
                          && Matches(buckets[Slot(key.hCode, mask)][j], key, eq))
  {
    var s := Slot(key.hCode, mask);
    if x :| x in Elems(buckets) && Matches(x, key, eq) {
      ElemsHas(buckets, x);
      var i :| 0 <= i < |buckets| && x in buckets[i];
      var j :| 0 <= j < |buckets[i]| && buckets[i][j] == x;
      assert i == s;
    }
    if j :| 0 <= j < |buckets[s]| && Matches(buckets[s][j], key, eq) {
      ElemsHas(buckets, buckets[s][j]);
    }
  }

  /** `h_insert` on the chains: the table stays well-formed and gains exactly the node. */
  lemma InsertKeepsWellFormed<K>(b: seq<seq<HNode<K>>>, mask: nat, size: nat, node: HNode<K>)
    requires WellFormed(b, mask, size)
    ensures var pos := Slot(node.hCode, mask);
            && WellFormed(b[pos := [node] + b[pos]], mask, size + 1)
            && Elems(b[pos := [node] + b[pos]]) == Elems(b) + multiset{node}
  {
    var pos := Slot(node.hCode, mask);
    var chain := [node] + b[pos];
    HashedUpdate(b, mask, pos, chain);
    ElemsUpdate(b, pos, chain);
    assert multiset(chain) == multiset{node} + multiset(b[pos]);
    MultisetCancel(Elems(b[pos := chain]), Elems(b) + multiset{node}, multiset(b[pos]));
  }

  /** `h_detach` on the chains: the table stays well-formed and loses exactly the unlinked node. */
  lemma DetachKeepsWellFormed<K>(b: seq<seq<HNode<K>>>, mask: nat, size: nat, bucket: nat, i: nat)
    requires WellFormed(b, mask, size)
    requires bucket < |b| && i < |b[bucket]|
    ensures size >= 1
    ensures var after := b[bucket := Unlink(b[bucket], i)];
            && WellFormed(after, mask, size - 1)
            && Elems(after) + multiset{b[bucket][i]} == Elems(b)
  {
    var rest := Unlink(b[bucket], i);
    UnlinkKeepsOthers(b[bucket], i, mask, bucket);
    ElemsUpdate(b, bucket, rest);
    MultisetCancel(Elems(b[bucket := rest]) + multiset{b[bucket][i]}, Elems(b), multiset(rest));
    HashedUpdate(b, mask, bucket, rest);
  }

  /** Moving one more element `x` from one multiset to the other keeps the bookkeeping of what has moved. */
  lemma MovedOne<T>(a1: multiset<T>, a2: multiset<T>, b1: multiset<T>, b2: multiset<T>,
                    n1: multiset<T>, n2: multiset<T>, moved: multiset<T>, x: T)
    requires a2 + moved == n2 && a1 == n1 + moved
    requires b2 + multiset{x} == a2 && b1 == a1 + multiset{x}
    ensures b2 + (moved + multiset{x}) == n2 && b1 == n1 + (moved + multiset{x})
  {
  }

  /** The position of a node in the table: its slot, and its place in that slot's chain. */
  datatype Link = Link(bucket: nat, index: nat)

  /**
   * `HTab`: one fixed-size generation of the table, a value as in the
   * `HMap` struct that embeds two of them. The bucket array itself is
   * shared state updated in place; a null `tab` is the absent table.
   */
  datatype HTab<K> = HTab(tab: array?<seq<HNode<K>>>, mask: nat, size: nat)

  /**
   * Nodes per slot, rounded down: `size / (mask + 1)`. It reaches
   * `MaxLoadFactor` exactly when the table holds `MaxLoadFactor` nodes for
   * each of its slots.
   */
  function LoadFactor(size: nat, mask: nat): (lf: nat)
    ensures lf * (mask + 1) <= size < (lf + 1) * (mask + 1)
    ensures lf >= MaxLoadFactor <==> size >= MaxLoadFactor * (mask + 1)
  {
    var lf := size / (mask + 1);
    DivBounds(size, mask + 1);
    if lf >= MaxLoadFactor then MulLe(MaxLoadFactor, lf, mask + 1); lf
    else MulLe(lf + 1, MaxLoadFactor, mask + 1); lf
  }

  lemma DivBounds(n: nat, d: nat)
    requires d > 0
    ensures (n / d) * d <= n < (n / d + 1) * d
  {
    var q, r := n / d, n % d;
    assert n == d * q + r;
    assert (q + 1) * d == q * d + d;
  }

  lemma MulLe(a: nat, b: nat, c: nat)
    requires a <= b
    ensures a * c <= b * c
  {
  }

  /** `HTab{}`: the absent table, valid and empty. */
  function EmptyTab<K>(): (t: HTab<K>)
    ensures t.tab == null && TabInv(t, []) && Elems<K>([]) == multiset{}
  {
    assert BitAnd(0, 1) == 0;
    HTab(null, 0, 0)
  }

  /** A well-formed bucket array: `mask + 1` chains, each node in its own slot, `size` nodes in all. */
  ghost predicate WellFormed<K>(buckets: seq<seq<HNode<K>>>, mask: nat, size: nat) {
    && |buckets| == mask + 1
    && Hashed(buckets, mask)
    && size == |Elems(buckets)|
  }

  /** The chains of one generation: none for the absent table. */
  ghost function Buckets<K>(t: HTab<K>): seq<seq<HNode<K>>>
    reads t.tab
  {
    if t.tab == null then [] else t.tab[..]
  }

  /** The invariant of one generation, given its chains `b`. */
  ghost predicate TabInv<K>(t: HTab<K>, b: seq<seq<HNode<K>>>) {
    && PowerOfTwoSize(t.mask + 1)
    && (t.tab == null ==> t.mask == 0 && t.size == 0 && b == [])
    && (t.tab != null ==> WellFormed(b, t.mask, t.size))
  }

  /** The invariant of one generation. */
  ghost predicate TabValid<K>(t: HTab<K>)
    reads t.tab
  {
    TabInv(t, Buckets(t))
  }

  /** The nodes one generation holds. */
  ghost function TabNodes<K>(t: HTab<K>): multiset<HNode<K>>
    reads t.tab
  {
    Elems(Buckets(t))
  }

  /** In a valid generation every node sits in the chain of its hash code modulo the capacity. */
  lemma TabSlotsAreModulo<K>(t: HTab<K>)
    requires TabValid(t) && t.tab != null
    ensures forall i, j :: 0 <= i < t.tab.Length && 0 <= j < |t.tab[i]| ==> t.tab[i][j].hCode % t.tab.Length == i
  {
    forall i, j | 0 <= i < t.tab.Length && 0 <= j < |t.tab[i]|
      ensures t.tab[i][j].hCode % t.tab.Length == i
    {
      assert Slot(Buckets(t)[i][j].hCode, t.mask) == i;
      SlotIsModulo(t.tab[i][j].hCode, t.mask);
    }
  }

  /** `h_init`: a fresh array of `n` empty slots, for a power of two `n`. */
  method TabInit<K>(n: nat) returns (t: HTab<K>)
    requires n > 0 && BitAnd(n - 1, n) == 0
    ensures TabValid(t) && t.tab != null && fresh(t.tab)
    ensures t.tab.Length == n && t.mask == n - 1 && t.size == 0
    ensures forall i :: 0 <= i < t.tab.Length ==> t.tab[i] == []
    ensures TabNodes(t) == multiset{}
  {
    var tab := new seq<HNode<K>>[n](_ => []);
    t := HTab(tab, n - 1, 0);
    ElemsOfEmptyChains(tab[..]);
  }

  /** `h_insert`: prepend the node to the chain of its slot. */
  method TabInsert<K>(t: HTab<K>, node: HNode<K>) returns (r: HTab<K>)
    requires TabValid(t) && t.tab != null
    modifies t.tab
    ensures r == t.(size := t.size + 1) && TabValid(r)
    ensures var pos := Slot(node.hCode, t.mask);
            Buckets(r) == old(Buckets(t))[pos := [node] + old(t.tab[pos])]
    ensures TabNodes(r) == old(TabNodes(t)) + multiset{node}
  {
    var pos := Slot(node.hCode, t.mask);
    var next := t.tab[pos];
    ghost var before := t.tab[..];
    InsertKeepsWellFormed(before, t.mask, t.size, node);
    t.tab[pos] := [node] + next;
    r := t.(size := t.size + 1);
    assert t.tab[..] == before[pos := [node] + next];
  }

  /** `h_lookup`: the link to the first node of the key's chain that matches it, if any. */
  method TabLookup<K>(t: HTab<K>, key: HNode<K>, eq: (HNode<K>, HNode<K>) -> bool) returns (from: Option<Link>)
    requires TabValid(t)
    ensures t.tab == null ==> from == None
    ensures from.Some? ==>
              && t.tab != null
              && from.value.bucket == Slot(key.hCode, t.mask)
              && from.value.index < |t.tab[from.value.bucket]|
              && Matches(t.tab[from.value.bucket][from.value.index], key, eq)
              && forall j :: 0 <= j < from.value.index ==> !Matches(t.tab[from.value.bucket][j], key, eq)
    ensures from.None? <==> NoMatch(TabNodes(t), key, eq)
    ensures from.Some? ==> FirstIn(Buckets(t), t.mask, key, eq) == Some(t.tab[from.value.bucket][from.value.index])
    ensures from.None? ==> FirstIn(Buckets(t), t.mask, key, eq) == None
  {
    if t.tab == null {
      return None;
    }
    var pos := Slot(key.hCode, t.mask);
    var chain := t.tab[pos];
    var i := 0;
    while i < |chain|
      invariant 0 <= i <= |chain|
      invariant forall j :: 0 <= j < i ==> !Matches(chain[j], key, eq)
    {
      if chain[i].hCode == key.hCode && eq(chain[i], key) {
        FirstMatchAt(chain, key, eq, i);
        ElemsHas(t.tab[..], chain[i]);
        assert chain[i] in TabNodes(t);
        return Some(Link(pos, i));
      }
      i := i + 1;
    }
    MatchesLieInSlot(t.tab[..], t.mask, key, eq);
    FirstMatchAt(chain, key, eq, |chain|);
    return None;
  }

  /** `h_detach`: unlink the node the link points to. */
  method TabDetach<K>(t: HTab<K>, from: Link) returns (r: HTab<K>, node: HNode<K>)
    requires TabValid(t) && t.tab != null
    requires from.bucket < t.tab.Length && from.index < |t.tab[from.bucket]|
    modifies t.tab
    ensures r.tab == t.tab && r.mask == t.mask && r.size + 1 == t.size && TabValid(r)
    ensures node == old(t.tab[from.bucket][from.index])
    ensures Buckets(r) == old(Buckets(t))[from.bucket := Unlink(old(t.tab[from.bucket]), from.index)]
    ensures TabNodes(r) + multiset{node} == old(TabNodes(t))
  {
    var chain := t.tab[from.bucket];
    node := chain[from.index];
    ghost var before := t.tab[..];
    DetachKeepsWellFormed(before, t.mask, t.size, from.bucket, from.index);
    t.tab[from.bucket] := Unlink(chain, from.index);
    r := t.(size := t.size - 1);
    assert t.tab[..] == before[from.bucket := Unlink(chain, from.index)];
  }

  /** What `hm_pop` does to one table: `h_lookup`, then `h_detach` of the link it found. */
  method TabPop<K>(t: HTab<K>, key: HNode<K>, eq: (HNode<K>, HNode<K>) -> bool)
    returns (r: HTab<K>, found: Option<HNode<K>>)
    requires TabValid(t)
    modifies t.tab
    ensures TabValid(r) && r.tab == t.tab && r.mask == t.mask
    ensures found.None? <==> NoMatch(old(TabNodes(t)), key, eq)
    ensures found.None? ==> r == t && TabNodes(r) == old(TabNodes(t))
    ensures found.Some? ==>
              && Matches(found.value, key, eq)
              && r.size + 1 == t.size
              && TabNodes(r) + multiset{found.value} == old(TabNodes(t))
    ensures forall i :: 0 <= i < |old(Buckets(t))| && old(Buckets(t))[i] == [] ==> Buckets(r)[i] == []
    ensures PoppedFirst(old(Buckets(t)), Buckets(r), t.mask, key, eq, found)
  {
    var from := TabLookup(t, key, eq);
    if from.None? {
      return t, None;
    }
    FirstMatchAt(t.tab[from.value.bucket], key, eq, from.value.index);
    var node;
    r, node := TabDetach(t, from.value);
    found := Some(node);
  }

  /**
   * The invariant of `HMap`, given the chains `b1` and `b2` of its two
   * generations: both well-formed, on distinct arrays; `h2` is allocated
   * only beside an allocated `h1`; the cursor has only passed empty slots
   * of `h2`.
   */
  ghost predicate MapInv<K>(h1: HTab<K>, h2: HTab<K>, resizingPos: nat,
                            b1: seq<seq<HNode<K>>>, b2: seq<seq<HNode<K>>>) {
    && TabInv(h1, b1) && TabInv(h2, b2)
    && (h2.tab != null ==>
          && h1.tab != null && h1.tab != h2.tab
          && resizingPos <= |b2|
          && forall i :: 0 <= i < resizingPos ==> b2[i] == [])
  }

  /** Changing the chains of `h1` in place keeps the map's invariant. */
  lemma NewerUpdated<K>(h1: HTab<K>, h2: HTab<K>, pos: nat, b1: seq<seq<HNode<K>>>, b2: seq<seq<HNode<K>>>,
                        n1: HTab<K>, c1: seq<seq<HNode<K>>>)
    requires MapInv(h1, h2, pos, b1, b2) && TabInv(n1, c1) && n1.tab == h1.tab
    ensures MapInv(n1, h2, pos, c1, b2)
  {
  }

  /** Changing the chains of `h2` in place, leaving its empty slots empty, keeps the map's invariant. */
  lemma OlderUpdated<K>(h1: HTab<K>, h2: HTab<K>, pos: nat, b1: seq<seq<HNode<K>>>, b2: seq<seq<HNode<K>>>,
                        n2: HTab<K>, c2: seq<seq<HNode<K>>>)
    requires MapInv(h1, h2, pos, b1, b2) && TabInv(n2, c2) && n2.tab == h2.tab && n2.mask == h2.mask
    requires forall i :: 0 <= i < |b2| && b2[i] == [] ==> c2[i] == []
    ensures MapInv(h1, n2, pos, b1, c2)
  {
  }

  /** Passing an empty slot of `h2` keeps the map's invariant. */
  lemma CursorAdvanced<K>(h1: HTab<K>, h2: HTab<K>, pos: nat, b1: seq<seq<HNode<K>>>, b2: seq<seq<HNode<K>>>)
    requires MapInv(h1, h2, pos, b1, b2) && h2.tab != null && pos < |b2| && b2[pos] == []
    ensures MapInv(h1, h2, pos + 1, b1, b2)
  {
  }

  /**
   * `HMap`: the newer table `h1`, which receives every insert, the older
   * table `h2`, allocated only while a resize is moving its nodes into `h1`,
   * and the cursor `resizingPos` into `h2`'s slots.
   */
  class HMap<K(==)> {
    var h1: HTab<K>
    var h2: HTab<K>
    var resizingPos: nat

    /** `MapInv` on the current chains. */
    ghost predicate Valid()
      reads this, h1.tab, h2.tab
    {
      MapInv(h1, h2, resizingPos, Buckets(h1), Buckets(h2))
    }

    /** Every node of the map, in whichever table holds it. */
    ghost function Contents(): multiset<HNode<K>>
      reads this, h1.tab, h2.tab
    {
      Elems(Buckets(h1)) + Elems(Buckets(h2))
    }

    /** `HMap{}`: both tables absent and the cursor at 0. */
    constructor ()
      ensures Valid() && h1 == EmptyTab() && h2 == EmptyTab() && resizingPos == 0
      ensures Contents() == multiset{}
    {
      h1, h2, resizingPos := EmptyTab(), EmptyTab(), 0;
    }

    /** `hm_size`: the nodes of both tables together. */
    method Size() returns (n: nat)
      requires Valid()
      ensures n == h1.size + h2.size
      ensures n == |Contents()|
    {
      n := h1.size + h2.size;
    }

    /** `h_detach` of the head of `h2`'s chain at the cursor. */
    method DetachHead() returns (node: HNode<K>)
      requires Valid() && h2.tab != null && resizingPos < h2.tab.Length && h2.tab[resizingPos] != []
      modifies this, h2.tab
      ensures Valid() && h1 == old(h1) && resizingPos == old(resizingPos)
      ensures Elems(Buckets(h1)) == old(Elems(Buckets(h1)))
      ensures h2.tab == old(h2.tab) && h2.mask == old(h2.mask) && h2.size + 1 == old(h2.size)
      ensures TabNodes(h2) + multiset{node} == old(TabNodes(h2))
    {
      ghost var t2, b1, b2 := h2, Buckets(h1), Buckets(h2);
      h2, node := TabDetach(h2, Link(resizingPos, 0));
      assert Buckets(h1) == b1;
      OlderUpdated(h1, t2, resizingPos, b1, b2, h2, Buckets(h2));
    }

    /**
     * One pass of the loop of `hm_help_resizing`: an empty slot of `h2` at
     * the cursor moves the cursor on; otherwise the head of that chain is
     * detached from `h2` and inserted into `h1`.
     */
    method MoveStep() returns (moved: Option<HNode<K>>)
      requires Valid() && h2.size > 0
      modifies this, h1.tab, h2.tab
      ensures Valid()
      ensures h1.tab == old(h1.tab) && h1.mask == old(h1.mask)
      ensures h2.tab == old(h2.tab) && h2.mask == old(h2.mask)
      ensures moved.None? ==> h1 == old(h1) && h2 == old(h2) && resizingPos == old(resizingPos) + 1
      ensures moved.None? ==> TabNodes(h1) == old(TabNodes(h1)) && TabNodes(h2) == old(TabNodes(h2))
      ensures moved.Some? ==> h2.size + 1 == old(h2.size) && h1.size == old(h1.size) + 1
      ensures moved.Some? ==> TabNodes(h2) + multiset{moved.value} == old(TabNodes(h2))
      ensures moved.Some? ==> TabNodes(h1) == old(TabNodes(h1)) + multiset{moved.value}
    {
      CursorInBounds(h2.tab[..], resizingPos);
      if h2.tab[resizingPos] == [] {
        CursorAdvanced(h1, h2, resizingPos, Buckets(h1), Buckets(h2));
        resizingPos := resizingPos + 1;
        return None;
      }
      var node := DetachHead();
      InsertNewer(node);
      moved := Some(node);
    }

    /**
     * The loop of `hm_help_resizing`: move at most `ResizingWork` nodes from
     * the head of `h2`'s chains into `h1`, skipping empty slots; `moved` is
     * what changed tables.
     */
    method MoveNodes() returns (ghost moved: multiset<HNode<K>>)
      requires Valid()
      modifies this, h1.tab, h2.tab
      ensures Valid()
      ensures h1.tab == old(h1.tab) && h1.mask == old(h1.mask)
      ensures h2.tab == old(h2.tab) && h2.mask == old(h2.mask)
      ensures old(h2.size) <= ResizingWork ==> h2.size == 0
      ensures old(h2.size) > ResizingWork ==> h2.size == old(h2.size) - ResizingWork
      ensures h1.size == old(h1.size) + (old(h2.size) - h2.size)
      ensures TabNodes(h2) + moved == old(TabNodes(h2)) && TabNodes(h1) == old(TabNodes(h1)) + moved
    {
      var nWork := 0;
      ghost var nodes1, nodes2 := TabNodes(h1), TabNodes(h2);
      moved := multiset{};
      while nWork < ResizingWork && h2.size > 0
        invariant Valid()
        invariant 0 <= nWork <= ResizingWork
        invariant h1.tab == old(h1.tab) && h1.mask == old(h1.mask)
        invariant h2.tab == old(h2.tab) && h2.mask == old(h2.mask)
        invariant h2.size + nWork == old(h2.size)
        invariant h1.size == old(h1.size) + nWork
        invariant TabNodes(h2) + moved == nodes2
        invariant TabNodes(h1) == nodes1 + moved
        decreases ResizingWork - nWork, if h2.tab == null then 0 else h2.tab.Length - resizingPos
      {
        ghost var a1, a2 := TabNodes(h1), TabNodes(h2);
        var step := MoveStep();
        if step.Some? {
          MovedOne(a1, a2, TabNodes(h1), TabNodes(h2), nodes1, nodes2, moved, step.value);
          moved := moved + multiset{step.value};
          nWork := nWork + 1;
        }
      }
    }

    /**
     * `hm_help_resizing`: one bounded batch of migration, then release `h2`
     * once it is empty. The map's contents do not change; nodes only move
     * from `h2` to `h1`.
     */
    method HelpResizing() returns (ghost moved: multiset<HNode<K>>)
      requires Valid()
      modifies this, h1.tab, h2.tab
      ensures Valid()
      ensures Contents() == old(Contents())
      ensures h1.tab == old(h1.tab) && h1.mask == old(h1.mask)
      ensures old(h2.size) <= ResizingWork ==> h2 == EmptyTab()
      ensures old(h2.size) > ResizingWork ==>
                h2.tab == old(h2.tab) && h2.mask == old(h2.mask) && h2.size == old(h2.size) - ResizingWork
      ensures h1.size == old(h1.size) + (old(h2.size) - h2.size)
      ensures TabNodes(h1) == old(TabNodes(h1)) + moved && TabNodes(h2) + moved == old(TabNodes(h2))
    {
      moved := MoveNodes();
      if h2.size == 0 && h2.tab != null {
        h2 := EmptyTab();
      }
    }

    /**
     * `hm_start_resizing`: the current table becomes the old one and `h1`
     * gets a fresh array of twice the capacity; the cursor restarts at 0.
     */
    method StartResizing()
      requires Valid() && h2.tab == null
      modifies this
      ensures Valid()
      ensures h2 == old(h1)
      ensures h1.tab != null && fresh(h1.tab) && h1.mask + 1 == 2 * (old(h1.mask) + 1) && h1.size == 0
      ensures TabNodes(h1) == multiset{}
      ensures resizingPos == 0
      ensures Contents() == old(Contents())
    {
      h2 := h1;
      DoubleIsPowerOfTwo(h1.mask + 1);
      h1 := TabInit((h1.mask + 1) * 2);
      resizingPos := 0;
    }

    /** The first two steps of `hm_insert`: allocate `h1` on first use, then `h_insert` into it. */
    method InsertNewer(node: HNode<K>)
      requires Valid()
      modifies this, h1.tab
      ensures Valid() && h1.tab != null && h2 == old(h2) && resizingPos == old(resizingPos)
      ensures Contents() == old(Contents()) + multiset{node}
      ensures old(h1.tab) == null ==> fresh(h1.tab) && h1.mask + 1 == InitialCap && h1.size == 1
      ensures old(h1.tab) != null ==> h1.tab == old(h1.tab) && h1.mask == old(h1.mask) && h1.size == old(h1.size) + 1
      ensures TabNodes(h1) == old(TabNodes(h1)) + multiset{node}
    {
      if h1.tab == null {
        InitialCapIsPowerOfTwo();
        h1 := TabInit(InitialCap);
      }
      ghost var t1, b1, b2 := h1, Buckets(h1), Buckets(h2);
      h1 := TabInsert(h1, node);
      assert Buckets(h2) == b2;
      NewerUpdated(t1, h2, resizingPos, b1, b2, h1, Buckets(h1));
    }

    /** The load check of `hm_insert`: with no resize running, a load factor of `MaxLoadFactor` starts one. */
    method CheckLoad()
      requires Valid() && h1.tab != null
      modifies this
      ensures Valid() && h1.tab != null && Contents() == old(Contents())
      ensures old(h2.tab) == null && LoadFactor(old(h1.size), old(h1.mask)) >= MaxLoadFactor
              ==> h2 == old(h1) && fresh(h1.tab) && h1.mask + 1 == 2 * (old(h1.mask) + 1) && resizingPos == 0
      ensures !(old(h2.tab) == null && LoadFactor(old(h1.size), old(h1.mask)) >= MaxLoadFactor)
              ==> h1 == old(h1) && h2 == old(h2) && resizingPos == old(resizingPos)
    {
      if h2.tab == null {
        var loadFactor := LoadFactor(h1.size, h1.mask);
        if loadFactor >= MaxLoadFactor {
          StartResizing();
        }
      }
    }

    /**
     * `hm_insert`: allocate `h1` with `InitialCap` slots on first use, put
     * the node in `h1`, start a resize when no resize is running and the
     * load factor `size / capacity` of `h1` has reached `MaxLoadFactor`,
     * then do one batch of migration.
     */
    method Insert(node: HNode<K>)
      requires Valid()
      modifies this, h1.tab, h2.tab
      ensures Valid() && h1.tab != null
      ensures Contents() == old(Contents()) + multiset{node}
      ensures |Contents()| == old(|Contents()|) + 1
      ensures old(h1.tab) == null ==> h1.mask + 1 == InitialCap
      ensures old(h1.tab) != null && old(h2.tab) == null
              && LoadFactor(old(h1.size) + 1, old(h1.mask)) >= MaxLoadFactor
              ==> h1.mask + 1 == 2 * (old(h1.mask) + 1)
      ensures old(h1.tab) != null
              && !(old(h2.tab) == null && LoadFactor(old(h1.size) + 1, old(h1.mask)) >= MaxLoadFactor)
              ==> h1.tab == old(h1.tab) && h1.mask == old(h1.mask)
    {
      InsertNewer(node);
      CheckLoad();
      ghost var moved := HelpResizing();
    }

    /**
     * The probes of `hm_lookup`: the first match in `h1`'s chain for the
     * key, else the first in `h2`'s. `h_insert` prepends, so within a table
     * that received no migrated nodes the newest match is found; migration
     * prepends too, which can put an older node ahead of a newer one.
     */
    method Find(key: HNode<K>, eq: (HNode<K>, HNode<K>) -> bool) returns (r: Option<HNode<K>>)
      requires Valid()
      ensures r.Some? ==> r.value in Contents() && Matches(r.value, key, eq)
      ensures r.None? <==> NoMatch(Contents(), key, eq)
      ensures !NoMatch(TabNodes(h1), key, eq) ==> r.Some? && r.value in TabNodes(h1)
      ensures !NoMatch(TabNodes(h1), key, eq) ==> r == FirstIn(Buckets(h1), h1.mask, key, eq)
      ensures NoMatch(TabNodes(h1), key, eq) ==> r == FirstIn(Buckets(h2), h2.mask, key, eq)
    {
      NoMatchUnion(TabNodes(h1), TabNodes(h2), key, eq);
      var from := TabLookup(h1, key, eq);
      if from.Some? {
        r := Some(h1.tab[from.value.bucket][from.value.index]);
        ElemsHas(h1.tab[..], r.value);
        return;
      }
      from := TabLookup(h2, key, eq);
      if from.Some? {
        r := Some(h2.tab[from.value.bucket][from.value.index]);
        ElemsHas(h2.tab[..], r.value);
        return;
      }
      r := None;
    }

    /**
     * `hm_lookup`: one batch of migration, then the probes of `Find`, on the
     * tables as the migration left them.
     */
    method Lookup(key: HNode<K>, eq: (HNode<K>, HNode<K>) -> bool) returns (r: Option<HNode<K>>)
      requires Valid()
      modifies this, h1.tab, h2.tab
      ensures Valid() && Contents() == old(Contents())
      ensures r.Some? ==> r.value in Contents() && Matches(r.value, key, eq)
      ensures r.None? <==> NoMatch(Contents(), key, eq)
      ensures !NoMatch(TabNodes(h1), key, eq) ==> r.Some? && r.value in TabNodes(h1)
      ensures !NoMatch(TabNodes(h1), key, eq) ==> r == FirstIn(Buckets(h1), h1.mask, key, eq)
      ensures NoMatch(TabNodes(h1), key, eq) ==> r == FirstIn(Buckets(h2), h2.mask, key, eq)
    {
      ghost var moved := HelpResizing();
      r := Find(key, eq);
    }

    /** `hm_pop` on `h1`: detach the first match of the key's chain, if any. */
    method PopNewer(key: HNode<K>, eq: (HNode<K>, HNode<K>) -> bool) returns (r: Option<HNode<K>>)
      requires Valid()
      modifies this, h1.tab
      ensures Valid() && h2 == old(h2) && resizingPos == old(resizingPos)
      ensures h1.tab == old(h1.tab) && h1.mask == old(h1.mask)
      ensures Buckets(h2) == old(Buckets(h2))
      ensures r.None? <==> NoMatch(old(TabNodes(h1)), key, eq)
      ensures r.None? ==> Contents() == old(Contents())
      ensures r.Some? ==> Matches(r.value, key, eq) && TabNodes(h1) + multiset{r.value} == old(TabNodes(h1))
      ensures PoppedFirst(old(Buckets(h1)), Buckets(h1), h1.mask, key, eq, r)
    {
      ghost var t1, b1, b2 := h1, Buckets(h1), Buckets(h2);
      h1, r := TabPop(h1, key, eq);
      assert Buckets(h2) == b2;
      NewerUpdated(t1, h2, resizingPos, b1, b2, h1, Buckets(h1));
    }

    /** `hm_pop` on `h2`: detach the first match of the key's chain, if any. */
    method PopOlder(key: HNode<K>, eq: (HNode<K>, HNode<K>) -> bool) returns (r: Option<HNode<K>>)
      requires Valid()
      modifies this, h2.tab
      ensures Valid() && h1 == old(h1) && resizingPos == old(resizingPos)
      ensures h2.tab == old(h2.tab) && h2.mask == old(h2.mask)
      ensures Buckets(h1) == old(Buckets(h1))
      ensures r.None? <==> NoMatch(old(TabNodes(h2)), key, eq)
      ensures r.None? ==> Contents() == old(Contents())
      ensures r.Some? ==> Matches(r.value, key, eq) && TabNodes(h2) + multiset{r.value} == old(TabNodes(h2))
      ensures PoppedFirst(old(Buckets(h2)), Buckets(h2), h2.mask, key, eq, r)
    {
      ghost var t2, b1, b2 := h2, Buckets(h1), Buckets(h2);
      h2, r := TabPop(h2, key, eq);
      assert Buckets(h1) == b1;
      OlderUpdated(h1, t2, resizingPos, b1, b2, h2, Buckets(h2));
    }

    /**
     * The probes of `hm_pop`: detach the first match of the key's chain in
     * `h1`; only when `h1` holds no match, the first match in `h2`.
     */
    method Detach(key: HNode<K>, eq: (HNode<K>, HNode<K>) -> bool) returns (r: Option<HNode<K>>)
      requires Valid()
      modifies this, h1.tab, h2.tab
      ensures Valid()
      ensures r.None? <==> NoMatch(old(Contents()), key, eq)
      ensures r.None? ==> Contents() == old(Contents())
      ensures r.Some? ==> Matches(r.value, key, eq) && Contents() + multiset{r.value} == old(Contents())
      ensures h1.tab == old(h1.tab) && h1.mask == old(h1.mask) && h2.tab == old(h2.tab) && h2.mask == old(h2.mask)
      ensures !NoMatch(old(TabNodes(h1)), key, eq) ==>
                && PoppedFirst(old(Buckets(h1)), Buckets(h1), h1.mask, key, eq, r)
                && Buckets(h2) == old(Buckets(h2))
      ensures NoMatch(old(TabNodes(h1)), key, eq) ==>
                && Buckets(h1) == old(Buckets(h1))
                && PoppedFirst(old(Buckets(h2)), Buckets(h2), h2.mask, key, eq, r)
      ensures !NoMatch(old(TabNodes(h1)), key, eq) ==>
                r.Some? && TabNodes(h1) + multiset{r.value} == old(TabNodes(h1)) && TabNodes(h2) == old(TabNodes(h2))
      ensures NoMatch(old(TabNodes(h1)), key, eq) ==>
                TabNodes(h1) == old(TabNodes(h1)) && (r.Some? ==> TabNodes(h2) + multiset{r.value} == old(TabNodes(h2)))
    {
      ghost var n1, n2 := TabNodes(h1), TabNodes(h2);
      NoMatchUnion(n1, n2, key, eq);
      r := PopNewer(key, eq);
      if r.None? {
        r := PopOlder(key, eq);
      }
    }

    /**
     * `hm_pop`: after one batch of migration, detach the first match from
     * `h1`, else from `h2`, and hand it back.
     */
    method Pop(key: HNode<K>, eq: (HNode<K>, HNode<K>) -> bool) returns (r: Option<HNode<K>>, ghost moved: multiset<HNode<K>>)
      requires Valid()
      modifies this, h1.tab, h2.tab
      ensures Valid()
      ensures r.None? <==> NoMatch(old(Contents()), key, eq)
      ensures r.None? ==> Contents() == old(Contents())
      ensures r.Some? ==> Matches(r.value, key, eq) && Contents() + multiset{r.value} == old(Contents())
      ensures |Contents()| == if r.Some? then old(|Contents()|) - 1 else old(|Contents()|)
      ensures !NoMatch(old(TabNodes(h1)) + moved, key, eq) ==>
                && r.Some?
                && TabNodes(h1) + multiset{r.value} == old(TabNodes(h1)) + moved
                && TabNodes(h2) + moved == old(TabNodes(h2))
      ensures NoMatch(old(TabNodes(h1)) + moved, key, eq) ==>
                && TabNodes(h1) == old(TabNodes(h1)) + moved
                && (r.Some? ==> TabNodes(h2) + moved + multiset{r.value} == old(TabNodes(h2)))
    {
      moved := HelpResizing();
      ghost var n1, n2 := TabNodes(h1), TabNodes(h2);
      assert n1 == old(TabNodes(h1)) + moved && n2 + moved == old(TabNodes(h2));
      r := Detach(key, eq);
    }

    /** `hm_destroy`: release both arrays and return to `HMap{}`. */
    method Destroy()
      modifies this
      ensures Valid() && h1 == EmptyTab() && h2 == EmptyTab() && resizingPos == 0
      ensures Contents() == multiset{}
    {
      h1, h2, resizingPos := EmptyTab(), EmptyTab(), 0;
    }
  }
}
