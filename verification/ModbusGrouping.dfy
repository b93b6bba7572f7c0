/**
 Grouping configured register mappings into read blocks: a greedy pass over the mappings in address
 order, in 16-bit arithmetic. Where that arithmetic wraps, mappings get lost; where it does not, the
 blocks hold every mapping and there are as few of them as possible.
 */
module ModbusGrouping {
  import opened ModbusSession

  datatype DataType =
    | NoType | Int16 | Uint16 | Int32 | Uint32 | Float | Unix | Int64 | Uint64 | Double | DateTime | Utf8
    | UnknownType

  datatype Mapping = Mapping(address: Word16, dataType: DataType, length: Word16, groupEnd: bool)

  datatype Block = Block(address: Word16, quantity: Word16)

  function RegisterLength(m: Mapping): Word16 {
    match m.dataType
    case NoType | UnknownType => 0
    case Int16 | Uint16 => 1
    case Int32 | Uint32 | Float | Unix => 2
    case Int64 | Uint64 | Double | DateTime => 4
    case Utf8 => if m.length > 0 then m.length else 24
  }

  function Size(m: Mapping): (n: Word16)
    ensures n > 0
  {
    if RegisterLength(m) == 0 then 1 else RegisterLength(m)
  }

  /** The last register of a mapping, in 16-bit arithmetic. */
  function End(m: Mapping): Word16 {
    Wrap(m.address + Size(m) - 1)
  }

  function Larger(a: Word16, b: Word16): Word16 {
    if b > a then b else a
  }

  function Span(start: Word16, end: Word16): Word16 {
    Wrap(end - start + 1)
  }

  function Limit(maxLength: Word16): Word16 {
    if maxLength == 0 then 100 else maxLength
  }

  /** One group: from its first mapping at index first to its last at index last. */
  datatype Group = Group(first: nat, last: nat, end: Word16)

  /** How far the group that starts at the given address goes beyond index j. */
  function Extend(items: seq<Mapping>, j: nat, start: Word16, end: Word16, L: Word16): (r: (nat, Word16))
    requires j < |items|
    ensures j <= r.0 < |items|
    decreases |items| - j
  {
    if j + 1 == |items| || items[j].groupEnd then (j, end)
    else if items[j + 1].dataType.NoType? then Extend(items, j + 1, start, end, L)
    else
      var candidate := Larger(end, End(items[j + 1]));
      if Span(start, candidate) > L then (j, end) else Extend(items, j + 1, start, candidate, L)
  }

  function GroupAt(items: seq<Mapping>, i: nat, L: Word16): (g: Group)
    requires i < |items|
    ensures g.first == i <= g.last < |items|
  {
    var r := Extend(items, i, items[i].address, End(items[i]), L);
    Group(i, r.0, r.1)
  }

  function GroupsFrom(items: seq<Mapping>, i: nat, L: Word16): (groups: seq<Group>)
    requires i <= |items|
    ensures forall g :: g in groups ==> i <= g.first <= g.last < |items|
    decreases |items| - i
  {
    if i == |items| then []
    else if items[i].dataType.NoType? then GroupsFrom(items, i + 1, L)
    else
      var g := GroupAt(items, i, L);
      [g] + GroupsFrom(items, g.last + 1, L)
  }

  function BlockOf(items: seq<Mapping>, g: Group): Block
    requires g.first < |items|
  {
    Block(items[g.first].address, Span(items[g.first].address, g.end))
  }

  ghost predicate Sorted(items: seq<Mapping>) {
    forall i, j :: 0 <= i < j < |items| ==> items[i].address <= items[j].address
  }

  /** The items are the mappings in address order, equal addresses in any order. */
  ghost predicate IsSortedCopy(items: seq<Mapping>, mappings: seq<Mapping>) {
    multiset(items) == multiset(mappings) && Sorted(items)
  }

  function Blocks(items: seq<Mapping>, L: Word16): (blocks: seq<Block>)
    ensures |blocks| == |GroupsFrom(items, 0, L)|
  {
    var groups := GroupsFrom(items, 0, L);
    seq(|groups|, k requires 0 <= k < |groups| => BlockOf(items, groups[k]))
  }

  /** The grouping loop over the sorted copy of the mappings, whichever copy the sort returned. */
  method GroupRegisterMappings(ghost mappings: seq<Mapping>, items: seq<Mapping>, maxLength: Word16)
    returns (groups: seq<Block>)
    requires IsSortedCopy(items, mappings)
    ensures groups == Blocks(items, Limit(maxLength))
    ensures !HasClash(items, Limit(maxLength)) ==>
              forall m :: m in mappings && !m.dataType.NoType? ==> exists b :: b in groups && Inside(m, b)
    ensures (forall m :: m in mappings && !m.dataType.NoType? ==> exists b :: b in groups && Inside(m, b))
            <==> forall k :: 0 <= k < |items| && !items[k].dataType.NoType? ==> IsSafe(items, k, Limit(maxLength))
  {
    groups := GroupSorted(items, Limit(maxLength));
    MappingsCoveredIff(mappings, items, Limit(maxLength));
    if !HasClash(items, Limit(maxLength)) {
      MappingsCovered(mappings, items, Limit(maxLength));
    }
  }

  method GroupSorted(items: seq<Mapping>, L: Word16) returns (groups: seq<Block>)
    ensures groups == Blocks(items, L)
  {
    groups := [];
    ghost var all := GroupsFrom(items, 0, L);
    ghost var done: seq<Group> := [];
    var i := 0;
    while i < |items|
      invariant 0 <= i <= |items|
      invariant all == done + GroupsFrom(items, i, L)
      invariant forall g :: g in done ==> g.first < |items|
      invariant |groups| == |done| && forall k :: 0 <= k < |done| ==> groups[k] == BlockOf(items, done[k])
    {
      if items[i].dataType.NoType? {
        i := i + 1;
        continue;
      }
      var j, end := ExtendGroup(items, i, L);
      assert all == done + [GroupAt(items, i, L)] + GroupsFrom(items, j + 1, L);
      done := done + [GroupAt(items, i, L)];
      groups := groups + [Block(items[i].address, Span(items[i].address, end))];
      i := j + 1;
    }
    assert all == done;
  }

  method ExtendGroup(items: seq<Mapping>, i: nat, L: Word16) returns (j: nat, end: Word16)
    requires i < |items|
    ensures Group(i, j, end) == GroupAt(items, i, L)
  {
    var start := items[i].address;
    end := End(items[i]);
    j := i;
    while j + 1 < |items|
      invariant i <= j < |items|
      invariant Extend(items, i, start, End(items[i]), L) == Extend(items, j, start, end, L)
    {
      if items[j].groupEnd {
        break;
      }
      var next := items[j + 1];
      if next.dataType.NoType? {
        j := j + 1;
        continue;
      }
      var candidate := Larger(end, End(next));
      if Span(start, candidate) > L {
        break;
      }
      end := candidate;
      j := j + 1;
    }
  }

  // ---------------------------------------------------------------------------------------------
  // Block length
  // ---------------------------------------------------------------------------------------------

  predicate IsSingle(items: seq<Mapping>, g: Group)
    requires g.last < |items|
  {
    forall k :: g.first < k <= g.last ==> items[k].dataType.NoType?
  }

  lemma {:induction false} ExtendKeepsLength(items: seq<Mapping>, i: nat, j: nat, start: Word16, end: Word16, L: Word16)
    requires i <= j < |items|
    requires Span(start, end) <= L || forall k :: i < k <= j ==> items[k].dataType.NoType?
    ensures var r := Extend(items, j, start, end, L);
            Span(start, r.1) <= L || forall k :: i < k <= r.0 ==> items[k].dataType.NoType?
    decreases |items| - j
  {
    if j + 1 < |items| && !items[j].groupEnd {
      if items[j + 1].dataType.NoType? {
        ExtendKeepsLength(items, i, j + 1, start, end, L);
      } else {
        var candidate := Larger(end, End(items[j + 1]));
        if Span(start, candidate) <= L {
          ExtendKeepsLength(items, i, j + 1, start, candidate, L);
        }
      }
    }
  }

  /** Every block belongs to a single mapping or is within the limit, whatever wraps. */
  lemma {:induction false} BlocksWithinLimit(items: seq<Mapping>, i: nat, L: Word16)
    requires i <= |items|
    ensures forall g :: g in GroupsFrom(items, i, L) ==> BlockOf(items, g).quantity <= L || IsSingle(items, g)
    decreases |items| - i
  {
    if i < |items| {
      if items[i].dataType.NoType? {
        BlocksWithinLimit(items, i + 1, L);
      } else {
        ExtendKeepsLength(items, i, i, items[i].address, End(items[i]), L);
        BlocksWithinLimit(items, GroupAt(items, i, L).last + 1, L);
      }
    }
  }

  // ---------------------------------------------------------------------------------------------
  // Coverage
  // ---------------------------------------------------------------------------------------------

  predicate Inside(m: Mapping, b: Block) {
    b.address <= m.address && m.address + Size(m) <= b.address + b.quantity
  }

  /** Every mapping of every group lies inside the block of its group. */
  ghost predicate AllCovered(items: seq<Mapping>, groups: seq<Group>)
    requires forall g :: g in groups ==> g.first <= g.last < |items|
  {
    forall g, k :: g in groups && g.first <= k <= g.last && !items[k].dataType.NoType? ==>
                     Inside(items[k], BlockOf(items, g))
  }

  /** The mapping runs past the last register. */
  predicate Overruns(m: Mapping) {
    m.address + Size(m) > 0x1_0000
  }

  /** The last register of a mapping, as if addresses had no end. */
  function TrueEnd(m: Mapping): int {
    m.address + Size(m) - 1
  }

  /** Two mappings can share a block that starts with the first: both or none overrun, and the way is below 65536. */
  predicate Compatible(first: Mapping, m: Mapping) {
    Overruns(m) == Overruns(first) && TrueEnd(m) - first.address + 1 < 0x1_0000
  }

  /** No mapping runs past the last register. */
  predicate NoneRunsOver(items: seq<Mapping>) {
    forall k :: 0 <= k < |items| ==> !Overruns(items[k])
  }

  /**
   A mapping at address 0 and a later one that ends at 65535 meet in one group: nothing between them
   closes the group or reaches the limit, and the span of both, 65536, is taken for 0.
   */
  predicate MeetsAcross(items: seq<Mapping>, i: nat, k: nat, L: Word16)
    requires i < k < |items|
  {
    && !items[i].dataType.NoType? && items[i].address == 0
    && !items[k].dataType.NoType? && End(items[k]) == 0xFFFF
    && (forall m :: i <= m < k ==> !items[m].groupEnd)
    && forall m :: i < m < k && !items[m].dataType.NoType? ==> End(items[i]) < L && End(items[m]) < L
  }

  predicate SpansEverything(items: seq<Mapping>, L: Word16) {
    exists i, k :: 0 <= i < k < |items| && MeetsAcross(items, i, k, L)
  }

  /** The largest end among the mappings from index i to index j. */
  function MaxEnd(items: seq<Mapping>, i: nat, j: nat): Word16
    requires i <= j < |items|
    decreases j
  {
    if j == i then End(items[i])
    else if items[j].dataType.NoType? then MaxEnd(items, i, j - 1)
    else Larger(MaxEnd(items, i, j - 1), End(items[j]))
  }

  lemma {:induction false} MaxEndBounds(items: seq<Mapping>, i: nat, j: nat, k: nat)
    requires i <= k <= j < |items| && (k == i || !items[k].dataType.NoType?)
    ensures End(items[k]) <= MaxEnd(items, i, j)
    decreases j
  {
    if j > k {
      MaxEndBounds(items, i, j - 1, k);
    }
  }

  lemma {:induction false} MaxEndReached(items: seq<Mapping>, i: nat, j: nat) returns (k: nat)
    requires i <= j < |items|
    ensures i <= k <= j && End(items[k]) == MaxEnd(items, i, j) && (k == i || !items[k].dataType.NoType?)
    decreases j
  {
    if j == i {
      k := i;
    } else if items[j].dataType.NoType? || End(items[j]) <= MaxEnd(items, i, j - 1) {
      k := MaxEndReached(items, i, j - 1);
    } else {
      k := j;
    }
  }

  /** Mapping m + 1 joins the group that starts at index i and has come to index m. */
  predicate Joins(items: seq<Mapping>, i: nat, m: nat, L: Word16)
    requires i <= m < |items| - 1
  {
    !items[m].groupEnd
    && (items[m + 1].dataType.NoType? || Span(items[i].address, MaxEnd(items, i, m + 1)) <= L)
  }

  /** The group goes on as long as mappings join, and its end is that of its farthest mapping. */
  lemma {:induction false} GroupReaches(items: seq<Mapping>, i: nat, m: nat, L: Word16)
    requires i <= m < |items|
    requires m <= GroupAt(items, i, L).last || forall n :: i <= n < m ==> Joins(items, i, n, L)
    ensures Extend(items, i, items[i].address, End(items[i]), L)
            == Extend(items, m, items[i].address, MaxEnd(items, i, m), L)
    ensures forall n :: i <= n < m ==> Joins(items, i, n, L)
    decreases m
  {
    if m > i {
      GroupReaches(items, i, m - 1, L);
      ExtendStep(items, i, m - 1, L);
    }
  }

  lemma ExtendStep(items: seq<Mapping>, i: nat, m: nat, L: Word16)
    requires i <= m < |items| - 1
    ensures Extend(items, m, items[i].address, MaxEnd(items, i, m), L) ==
            if Joins(items, i, m, L) then Extend(items, m + 1, items[i].address, MaxEnd(items, i, m + 1), L)
            else (m, MaxEnd(items, i, m))
  {
    assert MaxEnd(items, i, m + 1) ==
           if items[m + 1].dataType.NoType? then MaxEnd(items, i, m)
           else Larger(MaxEnd(items, i, m), End(items[m + 1]));
  }

  lemma GroupShape(items: seq<Mapping>, i: nat, L: Word16)
    requires i < |items|
    ensures var g := GroupAt(items, i, L);
            && g.end == MaxEnd(items, i, g.last)
            && (forall n :: i <= n < g.last ==> Joins(items, i, n, L))
            && (g.last + 1 < |items| ==> !Joins(items, i, g.last, L))
  {
    var g := GroupAt(items, i, L);
    GroupReaches(items, i, g.last, L);
    if g.last + 1 < |items| {
      ExtendStep(items, i, g.last, L);
    }
  }

  lemma EndOf(m: Mapping)
    ensures End(m) == if Overruns(m) then TrueEnd(m) - 0x1_0000 else TrueEnd(m)
  {
  }

  lemma EndWithoutWrap(m: Mapping)
    requires !Overruns(m)
    ensures End(m) == TrueEnd(m)
  {
  }

  lemma SpanOf(start: Word16, end: Word16)
    requires start <= end
    ensures Span(start, end) == if start == 0 && end == 0xFFFF then 0 else end - start + 1
  {
  }

  predicate IsFull(items: seq<Mapping>, g: Group)
    requires g.first < |items|
  {
    items[g.first].address == 0 && g.end == 0xFFFF
  }

  /** All typed mappings of a group lie inside its block. */
  ghost predicate GroupCovered(items: seq<Mapping>, g: Group)
    requires g.first <= g.last < |items|
  {
    forall k :: g.first <= k <= g.last && !items[k].dataType.NoType? ==> Inside(items[k], BlockOf(items, g))
  }

  ghost predicate GroupCompatible(items: seq<Mapping>, g: Group)
    requires g.first <= g.last < |items|
  {
    forall k :: g.first <= k <= g.last && !items[k].dataType.NoType? ==> Compatible(items[g.first], items[k])
  }

  lemma SpanAcross(start: Word16, end: Word16)
    requires end + 1 < start
    ensures Span(start, end) == end - start + 1 + 0x1_0000
  {
  }

  /** The block of a compatible group reaches as far as the farthest mapping. */
  lemma CompatibleSpan(first: Mapping, far: Mapping)
    requires Compatible(first, far) && first.address <= far.address
    ensures Span(first.address, End(far)) == TrueEnd(far) - first.address + 1
  {
    EndOf(far);
    if Overruns(far) {
      SpanAcross(first.address, End(far));
    } else {
      SpanOf(first.address, End(far));
    }
  }

  lemma CompatibleIsCovered(items: seq<Mapping>, i: nat, L: Word16)
    requires i < |items| && Sorted(items) && !items[i].dataType.NoType?
    requires GroupCompatible(items, GroupAt(items, i, L))
    ensures GroupCovered(items, GroupAt(items, i, L))
  {
    var g := GroupAt(items, i, L);
    GroupShape(items, i, L);
    var far := MaxEndReached(items, i, g.last);
    CompatibleSpan(items[i], items[far]);
    forall k | g.first <= k <= g.last && !items[k].dataType.NoType?
      ensures Inside(items[k], BlockOf(items, g))
    {
      MaxEndBounds(items, i, g.last, k);
      EndOf(items[k]);
      EndOf(items[far]);
    }
  }

  /** A block that holds an overrunning mapping wraps, and then it holds no other kind of its group. */
  lemma WrappedBlock(start: Word16, end: Word16, over: Mapping, m: Mapping)
    requires Inside(over, Block(start, Span(start, end))) && Overruns(over)
    requires start <= m.address && End(m) <= end
    ensures Overruns(m)
  {
    EndOf(m);
    if start <= end {
      SpanOf(start, end);
    }
  }

  lemma CoveredIsCompatible(items: seq<Mapping>, i: nat, L: Word16)
    requires i < |items| && Sorted(items) && !items[i].dataType.NoType?
    requires GroupCovered(items, GroupAt(items, i, L))
    ensures GroupCompatible(items, GroupAt(items, i, L))
  {
    var g := GroupAt(items, i, L);
    GroupShape(items, i, L);
    MaxEndBounds(items, i, g.last, i);
    forall k | g.first <= k <= g.last && !items[k].dataType.NoType?
      ensures Compatible(items[i], items[k])
    {
      MaxEndBounds(items, i, g.last, k);
      assert Inside(items[k], BlockOf(items, g)) && Inside(items[i], BlockOf(items, g));
      if Overruns(items[i]) {
        WrappedBlock(items[i].address, g.end, items[i], items[k]);
      } else if Overruns(items[k]) {
        WrappedBlock(items[i].address, g.end, items[k], items[i]);
      }
    }
  }

  /** Mapping i starts a group. */
  ghost predicate Leads(items: seq<Mapping>, i: nat, L: Word16) {
    exists g :: g in GroupsFrom(items, 0, L) && g.first == i
  }

  /**
   Two mappings that cannot share a block and that the loop puts into one: the first starts a group, and
   everything from there to the second joins it.
   */
  ghost predicate Clash(items: seq<Mapping>, i: nat, k: nat, L: Word16)
    requires i <= k < |items|
  {
    && Leads(items, i, L) && !items[k].dataType.NoType? && !Compatible(items[i], items[k])
    && forall n :: i <= n < k ==> Joins(items, i, n, L)
  }

  ghost predicate HasClash(items: seq<Mapping>, L: Word16) {
    exists i, k :: 0 <= i <= k < |items| && Clash(items, i, k, L)
  }

  /** A group is what joins its first mapping. */
  lemma JoinedIsMember(items: seq<Mapping>, i: nat, k: nat, L: Word16)
    requires i <= k < |items|
    ensures k <= GroupAt(items, i, L).last <==> forall n :: i <= n < k ==> Joins(items, i, n, L)
  {
    GroupShape(items, i, L);
    var last := GroupAt(items, i, L).last;
    if last < k {
      assert !Joins(items, i, last, L);
    }
  }

  /** Without overrunning mappings: a group's block holds its mappings unless the group spans all 65536 registers. */
  lemma GroupCoveredIff(items: seq<Mapping>, i: nat, L: Word16)
    requires i < |items| && Sorted(items) && NoneRunsOver(items) && !items[i].dataType.NoType?
    ensures var g := GroupAt(items, i, L);
            IsFull(items, g) <==> exists k :: g.first <= k <= g.last && !items[k].dataType.NoType?
                                              && !Inside(items[k], BlockOf(items, g))
  {
    var g := GroupAt(items, i, L);
    GroupShape(items, i, L);
    MaxEndBounds(items, i, g.last, i);
    EndWithoutWrap(items[i]);
    SpanOf(items[i].address, g.end);
    if IsFull(items, g) {
      assert !Inside(items[i], BlockOf(items, g));
    } else {
      forall k | g.first <= k <= g.last && !items[k].dataType.NoType?
        ensures Inside(items[k], BlockOf(items, g))
      {
        EndWithoutWrap(items[k]);
        MaxEndBounds(items, i, g.last, k);
      }
    }
  }

  /** The first mapping on the way that ends at 65535. */
  lemma {:induction false} FirstAtTop(items: seq<Mapping>, i: nat, j: nat) returns (k: nat)
    requires i <= j < |items| && MaxEnd(items, i, j) == 0xFFFF && End(items[i]) < 0xFFFF
    ensures i < k <= j && !items[k].dataType.NoType? && End(items[k]) == 0xFFFF && MaxEnd(items, i, k - 1) < 0xFFFF
    decreases j
  {
    if MaxEnd(items, i, j - 1) == 0xFFFF {
      k := FirstAtTop(items, i, j - 1);
    } else {
      k := j;
    }
  }

  lemma {:induction false} MaxEndGrows(items: seq<Mapping>, i: nat, j: nat, k: nat)
    requires i <= j <= k < |items|
    ensures MaxEnd(items, i, j) <= MaxEnd(items, i, k)
    decreases k
  {
    if j < k {
      MaxEndGrows(items, i, j, k - 1);
    }
  }

  lemma JoinedBelowTop(items: seq<Mapping>, i: nat, m: nat, L: Word16)
    requires i < m < |items| && items[i].address == 0 && !items[m].dataType.NoType?
    requires Joins(items, i, m - 1, L) && MaxEnd(items, i, m) < 0xFFFF
    ensures End(items[i]) < L && End(items[m]) < L
  {
    MaxEndBounds(items, i, m, i);
    MaxEndBounds(items, i, m, m);
    SpanOf(0, MaxEnd(items, i, m));
  }

  lemma FullGroupMeetsAcross(items: seq<Mapping>, i: nat, L: Word16)
    requires i < |items| && Sorted(items) && NoneRunsOver(items) && !items[i].dataType.NoType?
    requires IsFull(items, GroupAt(items, i, L))
    ensures SpansEverything(items, L)
  {
    var g := GroupAt(items, i, L);
    GroupShape(items, i, L);
    EndWithoutWrap(items[i]);
    var k := FirstAtTop(items, i, g.last);
    forall m | i < m < k && !items[m].dataType.NoType?
      ensures End(items[i]) < L && End(items[m]) < L
    {
      MaxEndGrows(items, i, m, k - 1);
      JoinedBelowTop(items, i, m, L);
    }
    forall m | i <= m < k
      ensures !items[m].groupEnd
    {
      assert Joins(items, i, m, L);
    }
    assert MeetsAcross(items, i, k, L);
  }

  lemma {:induction false} GroupContaining(items: seq<Mapping>, from: nat, i: nat, L: Word16) returns (g: Group)
    requires from <= i < |items| && !items[i].dataType.NoType?
    ensures g in GroupsFrom(items, from, L) && g.first <= i <= g.last
    ensures g == GroupAt(items, g.first, L) && !items[g.first].dataType.NoType? && from <= g.first
    decreases i - from
  {
    if items[from].dataType.NoType? {
      g := GroupContaining(items, from + 1, i, L);
    } else {
      g := GroupAt(items, from, L);
      if g.last < i {
        g := GroupContaining(items, g.last + 1, i, L);
      }
    }
  }

  /** While a group that starts at address 0 goes from i to k, its end stays below the limit or is at the top. */
  predicate SmallOrTop(items: seq<Mapping>, l: nat, i: nat, m: nat, L: Word16)
    requires l <= i <= m < |items|
  {
    || MaxEnd(items, l, m) == 0xFFFF
    || MaxEnd(items, l, m) < L
    || (l == i && MaxEnd(items, i, m) == End(items[i]))
  }

  lemma StartsSmall(items: seq<Mapping>, l: nat, i: nat, L: Word16)
    requires l <= i < |items| && !items[i].dataType.NoType?
    requires items[l].address == 0 && i <= GroupAt(items, l, L).last
    ensures SmallOrTop(items, l, i, i, L)
  {
    if l < i {
      GroupReaches(items, l, i, L);
      assert Joins(items, l, i - 1, L);
      SpanOf(0, MaxEnd(items, l, i));
    }
  }

  lemma StaysSmall(items: seq<Mapping>, l: nat, i: nat, k: nat, m: nat, L: Word16)
    requires l <= i <= m < k < |items| && MeetsAcross(items, i, k, L) && SmallOrTop(items, l, i, m, L)
    requires items[l].address == 0
    ensures Joins(items, l, m, L)
    ensures m + 1 < k ==> SmallOrTop(items, l, i, m + 1, L)
  {
    assert MaxEnd(items, l, m + 1) ==
           if items[m + 1].dataType.NoType? then MaxEnd(items, l, m)
           else Larger(MaxEnd(items, l, m), End(items[m + 1]));
    SpanOf(0, MaxEnd(items, l, m + 1));
  }

  lemma {:induction false} GroupCrosses(items: seq<Mapping>, l: nat, i: nat, k: nat, m: nat, L: Word16)
    requires l <= i < k < |items| && MeetsAcross(items, i, k, L) && i <= m <= k
    requires items[l].address == 0 && i <= GroupAt(items, l, L).last
    ensures forall n :: l <= n < m ==> Joins(items, l, n, L)
    ensures m < k ==> SmallOrTop(items, l, i, m, L)
    decreases m
  {
    if m == i {
      GroupReaches(items, l, i, L);
      StartsSmall(items, l, i, L);
    } else {
      GroupCrosses(items, l, i, k, m - 1, L);
      StaysSmall(items, l, i, k, m - 1, L);
    }
  }

  lemma MeetingIsFull(items: seq<Mapping>, i: nat, k: nat, L: Word16) returns (g: Group)
    requires Sorted(items) && i < k < |items| && MeetsAcross(items, i, k, L)
    ensures g in GroupsFrom(items, 0, L) && IsFull(items, g)
    ensures g == GroupAt(items, g.first, L) && !items[g.first].dataType.NoType?
  {
    g := GroupContaining(items, 0, i, L);
    GroupCrosses(items, g.first, i, k, k, L);
    GroupReaches(items, g.first, k, L);
    GroupShape(items, g.first, L);
    MaxEndGrows(items, g.first, k, g.last);
    MaxEndBounds(items, g.first, k, k);
  }

  lemma {:induction false} GroupsAreGroups(items: seq<Mapping>, from: nat, L: Word16)
    requires from <= |items|
    ensures forall g :: g in GroupsFrom(items, from, L) ==>
                          g == GroupAt(items, g.first, L) && !items[g.first].dataType.NoType?
    decreases |items| - from
  {
    if from < |items| {
      if items[from].dataType.NoType? {
        GroupsAreGroups(items, from + 1, L);
      } else {
        GroupsAreGroups(items, GroupAt(items, from, L).last + 1, L);
      }
    }
  }

  /**
   For every sorted input, every typed mapping lies inside the block of its group exactly when no group joins two
   mappings of which one overruns and the other does not, or that lie 65536 registers apart.
   */
  lemma CoverageIff(items: seq<Mapping>, L: Word16)
    requires Sorted(items)
    ensures AllCovered(items, GroupsFrom(items, 0, L)) <==> !HasClash(items, L)
  {
    var groups := GroupsFrom(items, 0, L);
    GroupsAreGroups(items, 0, L);
    if !AllCovered(items, groups) {
      var g :| g in groups && !GroupCovered(items, g);
      UncoveredClashes(items, g, L);
    }
    if i, k :| 0 <= i <= k < |items| && Clash(items, i, k, L) {
      var g :| g in groups && g.first == i;
      JoinedIsMember(items, i, k, L);
      assert !GroupCompatible(items, g);
      if GroupCovered(items, g) {
        CoveredIsCompatible(items, i, L);
      }
    }
  }

  lemma UncoveredClashes(items: seq<Mapping>, g: Group, L: Word16)
    requires Sorted(items) && g in GroupsFrom(items, 0, L) && g == GroupAt(items, g.first, L)
    requires !items[g.first].dataType.NoType? && !GroupCovered(items, g)
    ensures HasClash(items, L)
  {
    if GroupCompatible(items, g) {
      CompatibleIsCovered(items, g.first, L);
    }
    var k :| g.first <= k <= g.last && !items[k].dataType.NoType? && !Compatible(items[g.first], items[k]);
    JoinedIsMember(items, g.first, k, L);
    assert Clash(items, g.first, k, L);
  }

  /**
   When no mapping runs past the last register, the mappings themselves show it: the condition is that no mapping
   at address 0 meets one that ends at 65535.
   */
  lemma CoverageWithoutOverrun(items: seq<Mapping>, L: Word16)
    requires Sorted(items) && NoneRunsOver(items)
    ensures AllCovered(items, GroupsFrom(items, 0, L)) <==> !SpansEverything(items, L)
    ensures HasClash(items, L) <==> SpansEverything(items, L)
  {
    var groups := GroupsFrom(items, 0, L);
    GroupsAreGroups(items, 0, L);
    CoverageIff(items, L);
    forall g | g in groups
      ensures IsFull(items, g) <==> exists k :: g.first <= k <= g.last && !items[k].dataType.NoType?
                                                && !Inside(items[k], BlockOf(items, g))
      ensures IsFull(items, g) ==> SpansEverything(items, L)
    {
      GroupCoveredIff(items, g.first, L);
      if IsFull(items, g) {
        FullGroupMeetsAcross(items, g.first, L);
      }
    }
    if SpansEverything(items, L) {
      var i, k :| 0 <= i < k < |items| && MeetsAcross(items, i, k, L);
      var g := MeetingIsFull(items, i, k, L);
      assert g in groups && IsFull(items, g);
    }
  }

  /** Without a clash every mapping with a type lies inside some block, however equal addresses were sorted. */
  lemma MappingsCovered(mappings: seq<Mapping>, items: seq<Mapping>, L: Word16)
    requires IsSortedCopy(items, mappings) && !HasClash(items, L)
    ensures forall m :: m in mappings && !m.dataType.NoType? ==> exists b :: b in Blocks(items, L) && Inside(m, b)
  {
    CoverageIff(items, L);
    var groups := GroupsFrom(items, 0, L);
    forall m | m in mappings && !m.dataType.NoType?
      ensures exists b :: b in Blocks(items, L) && Inside(m, b)
    {
      assert m in multiset(mappings);
      assert m in items;
      var i :| 0 <= i < |items| && items[i] == m;
      var g := GroupContaining(items, 0, i, L);
      var k :| 0 <= k < |groups| && groups[k] == g;
      assert Blocks(items, L)[k] == BlockOf(items, g);
    }
  }

  /**
   A group of overrunning mappings alone, short of 65536 registers, that starts at or before this one and of which
   some mapping ends at or behind it.
   */
  ghost predicate TakesIn(items: seq<Mapping>, g: Group, m: Mapping)
    requires g.first <= g.last < |items|
  {
    && Overruns(items[g.first]) && GroupCompatible(items, g) && items[g.first].address <= m.address
    && exists n :: g.first <= n <= g.last && !items[n].dataType.NoType? && TrueEnd(items[n]) >= TrueEnd(m)
  }

  lemma WrappedBlockTakesIn(items: seq<Mapping>, i: nat, L: Word16, m: Mapping)
    requires i < |items| && Sorted(items) && !items[i].dataType.NoType? && Overruns(m)
    requires Inside(m, BlockOf(items, GroupAt(items, i, L)))
    ensures TakesIn(items, GroupAt(items, i, L), m)
  {
    var g := GroupAt(items, i, L);
    GroupShape(items, i, L);
    ReachOfWrapped(items[i].address, g.end, m);
    forall k | g.first <= k <= g.last && !items[k].dataType.NoType?
      ensures Overruns(items[k]) && Compatible(items[i], items[k])
    {
      MaxEndBounds(items, i, g.last, k);
      MaxEndBounds(items, i, g.last, i);
      EndOf(items[k]);
      EndOf(items[i]);
    }
    var far := MaxEndReached(items, i, g.last);
    EndOf(items[far]);
  }

  /** A block holds an overrunning mapping only when its 16-bit end lies before its start, and so reaches past it. */
  lemma ReachOfWrapped(start: Word16, end: Word16, m: Mapping)
    requires Inside(m, Block(start, Span(start, end))) && Overruns(m)
    ensures end + 1 < start && TrueEnd(m) <= end + 0x1_0000
  {
    if start <= end {
      SpanOf(start, end);
    } else if end + 1 < start {
      SpanAcross(start, end);
    }
  }

  lemma TakenInIsInside(items: seq<Mapping>, i: nat, L: Word16, m: Mapping)
    requires i < |items| && Sorted(items) && !items[i].dataType.NoType?
    requires TakesIn(items, GroupAt(items, i, L), m)
    ensures Inside(m, BlockOf(items, GroupAt(items, i, L)))
  {
    var g := GroupAt(items, i, L);
    var n :| g.first <= n <= g.last && !items[n].dataType.NoType? && TrueEnd(items[n]) >= TrueEnd(m);
    CompatibleIsCovered(items, i, L);
    assert Inside(items[n], BlockOf(items, g));
  }

  /** A mapping within the address space lies inside the block of its group unless that block spans everything. */
  lemma PlainInsideIff(items: seq<Mapping>, i: nat, k: nat, L: Word16)
    requires i <= k < |items| && Sorted(items) && !items[i].dataType.NoType? && k <= GroupAt(items, i, L).last
    requires !items[k].dataType.NoType? && !Overruns(items[k])
    ensures Inside(items[k], BlockOf(items, GroupAt(items, i, L))) <==> !IsFull(items, GroupAt(items, i, L))
  {
    var g := GroupAt(items, i, L);
    GroupShape(items, i, L);
    MaxEndBounds(items, i, g.last, k);
    EndWithoutWrap(items[k]);
    SpanOf(items[i].address, g.end);
  }

  /** The mapping lies inside the block of some group, its own or another. */
  ghost predicate IsCovered(items: seq<Mapping>, m: Mapping, L: Word16) {
    exists g :: g in GroupsFrom(items, 0, L) && Inside(m, BlockOf(items, g))
  }

  /** An overrunning mapping lies inside some block exactly when some group takes it in. */
  lemma OverrunningCoveredIff(items: seq<Mapping>, m: Mapping, L: Word16)
    requires Sorted(items) && Overruns(m)
    ensures IsCovered(items, m, L) <==> exists g :: g in GroupsFrom(items, 0, L) && TakesIn(items, g, m)
  {
    GroupsAreGroups(items, 0, L);
    if g :| g in GroupsFrom(items, 0, L) && Inside(m, BlockOf(items, g)) {
      WrappedBlockTakesIn(items, g.first, L, m);
    }
    if g :| g in GroupsFrom(items, 0, L) && TakesIn(items, g, m) {
      TakenInIsInside(items, g.first, L, m);
    }
  }

  /** What a mapping needs to lie inside some block, where its own group's block does not hold it for sure. */
  ghost predicate IsSafe(items: seq<Mapping>, k: nat, L: Word16)
    requires k < |items|
  {
    if Overruns(items[k]) then exists g :: g in GroupsFrom(items, 0, L) && TakesIn(items, g, items[k])
    else
      (exists g :: g in GroupsFrom(items, 0, L) && g.first <= k <= g.last && IsFull(items, g)) ==>
        IsCovered(items, items[k], L)
  }

  lemma CoveredIffSafe(items: seq<Mapping>, k: nat, L: Word16)
    requires k < |items| && Sorted(items) && !items[k].dataType.NoType?
    ensures IsCovered(items, items[k], L) <==> IsSafe(items, k, L)
  {
    if Overruns(items[k]) {
      OverrunningCoveredIff(items, items[k], L);
    } else {
      var g := GroupContaining(items, 0, k, L);
      PlainInsideIff(items, g.first, k, L);
    }
  }

  lemma CoveredByBlockIff(items: seq<Mapping>, m: Mapping, L: Word16)
    ensures IsCovered(items, m, L) <==> exists b :: b in Blocks(items, L) && Inside(m, b)
  {
    var groups, blocks := GroupsFrom(items, 0, L), Blocks(items, L);
    if g :| g in groups && Inside(m, BlockOf(items, g)) {
      var k :| 0 <= k < |groups| && groups[k] == g;
      assert blocks[k] == BlockOf(items, g) && blocks[k] in blocks;
    }
    if b :| b in blocks && Inside(m, b) {
      var k :| 0 <= k < |blocks| && blocks[k] == b;
      assert groups[k] in groups && BlockOf(items, groups[k]) == b;
    }
  }

  /**
   Every mapping with a type lies inside some block exactly when each overrunning one is taken in by a group of such
   mappings, and each other one whose group's block spans everything lies inside another block.
   */
  lemma MappingsCoveredIff(mappings: seq<Mapping>, items: seq<Mapping>, L: Word16)
    requires IsSortedCopy(items, mappings)
    ensures (forall m :: m in mappings && !m.dataType.NoType? ==> exists b :: b in Blocks(items, L) && Inside(m, b))
            <==> forall k :: 0 <= k < |items| && !items[k].dataType.NoType? ==> IsSafe(items, k, L)
  {
    SameMembers(mappings, items);
    forall k | 0 <= k < |items| && !items[k].dataType.NoType?
      ensures IsSafe(items, k, L) <==> exists b :: b in Blocks(items, L) && Inside(items[k], b)
    {
      CoveredIffSafe(items, k, L);
      CoveredByBlockIff(items, items[k], L);
    }
    forall m | m in mappings
      ensures exists k :: 0 <= k < |items| && items[k] == m
    {
      assert m in items;
    }
  }

  lemma SameMembers<T>(a: seq<T>, b: seq<T>)
    requires multiset(a) == multiset(b)
    ensures forall x :: x in a <==> x in b
  {
    assert forall x :: x in a <==> x in multiset(a);
    assert forall x :: x in b <==> x in multiset(b);
  }

  /** A mapping at each end of the address space makes one block of no registers. */
  lemma BothEndsAreLost()
    ensures var items := [Mapping(0, Uint16, 0, false), Mapping(65535, Uint16, 0, false)];
            Sorted(items) && NoneRunsOver(items) && Blocks(items, 100) == [Block(0, 0)]
  {
    var items := [Mapping(0, Uint16, 0, false), Mapping(65535, Uint16, 0, false)];
    assert Extend(items, 0, 0, 0, 100) == Extend(items, 1, 0, 65535, 100);
    assert GroupsFrom(items, 0, 100) == [Group(0, 1, 65535)];
  }

  /** A mapping that runs past the last register can be left out of the block of its group. */
  lemma OverrunningMappingIsLost()
    ensures var items := [Mapping(100, Uint16, 0, false), Mapping(65535, Uint32, 0, false)];
            Sorted(items) && Blocks(items, 100) == [Block(100, 1)]
            && !AllCovered(items, GroupsFrom(items, 0, 100))
  {
    var items := [Mapping(100, Uint16, 0, false), Mapping(65535, Uint32, 0, false)];
    assert End(items[0]) == 100 && End(items[1]) == 0;
    assert Extend(items, 0, 100, 100, 100) == Extend(items, 1, 100, 100, 100) == (1, 100);
    var g := Group(0, 1, 100);
    assert GroupAt(items, 0, 100) == g;
    assert GroupsFrom(items, 2, 100) == [] && GroupsFrom(items, 0, 100) == [g];
    assert g in GroupsFrom(items, 0, 100) && !Inside(items[1], BlockOf(items, g));
  }

  predicate IsExample(items: seq<Mapping>) {
    && |items| == 3 && items[0] == Mapping(10, Utf8, 65530, true) && items[1] == Mapping(20, Uint16, 0, false)
    && items[2] == Mapping(65535, Uint32, 0, false)
  }

  lemma ExampleEnds(items: seq<Mapping>)
    requires IsExample(items)
    ensures Sorted(items) && End(items[0]) == 3 && End(items[1]) == 20 && End(items[2]) == 0
    ensures Size(items[0]) == 65530 && Size(items[1]) == 1 && Size(items[2]) == 2
  {
  }

  lemma ExampleGroups(items: seq<Mapping>)
    requires IsExample(items)
    ensures GroupAt(items, 0, 100) == Group(0, 0, 3) && GroupAt(items, 1, 100) == Group(1, 2, 20)
    ensures GroupsFrom(items, 0, 100) == [Group(0, 0, 3), Group(1, 2, 20)]
  {
    ExampleEnds(items);
    assert Extend(items, 0, 10, 3, 100) == (0, 3);
    assert Extend(items, 1, 20, 20, 100) == Extend(items, 2, 20, 20, 100) == (2, 20);
    assert GroupsFrom(items, 3, 100) == [] && GroupsFrom(items, 1, 100) == [Group(1, 2, 20)];
  }

  /** A clash need not lose anything: here the block of a long overrunning mapping takes in the one that is left out. */
  lemma ClashLosesNothing(items: seq<Mapping>)
    requires IsExample(items)
    ensures HasClash(items, 100) && forall k :: 0 <= k < |items| ==> IsCovered(items, items[k], 100)
    ensures !Inside(items[2], BlockOf(items, GroupAt(items, 1, 100)))
  {
    ExampleEnds(items);
    ExampleGroups(items);
    var g, h := Group(0, 0, 3), Group(1, 2, 20);
    ExampleBlocks(items);
    assert g in GroupsFrom(items, 0, 100) && h in GroupsFrom(items, 0, 100);
    assert !GroupCovered(items, h);
    UncoveredClashes(items, h, 100);
  }

  lemma ExampleBlocks(items: seq<Mapping>)
    requires IsExample(items)
    ensures BlockOf(items, Group(0, 0, 3)) == Block(10, 65530) && BlockOf(items, Group(1, 2, 20)) == Block(20, 1)
  {
  }

  // ---------------------------------------------------------------------------------------------
  // As few blocks as possible
  // ---------------------------------------------------------------------------------------------

  /** An interval of registers that a read could fetch. */
  datatype Window = Window(start: int, length: nat)

  predicate Fits(m: Mapping, w: Window) {
    w.start <= m.address && m.address + Size(m) <= w.start + w.length
  }

  ghost predicate IsCover(items: seq<Mapping>, windows: seq<Window>, L: Word16) {
    && (forall w :: w in windows ==> w.length <= L)
    && forall k :: 0 <= k < |items| && !items[k].dataType.NoType? ==>
                     exists n :: 0 <= n < |windows| && Fits(items[k], windows[n])
  }

  predicate NoGroupEnds(items: seq<Mapping>) {
    forall k :: 0 <= k < |items| ==> !items[k].groupEnd
  }

  predicate NoneOversized(items: seq<Mapping>, L: Word16) {
    forall k :: 0 <= k < |items| && !items[k].dataType.NoType? ==> Size(items[k]) <= L
  }

  /** No read of at most L registers can hold both mappings. */
  predicate Apart(a: Mapping, b: Mapping, L: Word16) {
    b.address + Size(b) - a.address > L
  }

  lemma ApartDontShare(a: Mapping, b: Mapping, w: Window, L: Word16)
    requires Apart(a, b, L) && w.length <= L
    ensures !(Fits(a, w) && Fits(b, w))
  {
  }

  /** A group that was not closed by a flag stopped because its first mapping and the next one are apart. */
  lemma LeadersApart(items: seq<Mapping>, i: nat, L: Word16)
    requires Sorted(items) && NoneRunsOver(items) && NoGroupEnds(items) && NoneOversized(items, L)
    requires !SpansEverything(items, L)
    requires i < |items| && !items[i].dataType.NoType? && GroupAt(items, i, L).last + 1 < |items|
    ensures var next := items[GroupAt(items, i, L).last + 1]; !next.dataType.NoType? && Apart(items[i], next, L)
  {
    var g := GroupAt(items, i, L);
    GroupShape(items, i, L);
    var next := items[g.last + 1];
    EndWithoutWrap(items[i]);
    EndWithoutWrap(next);
    MaxEndBounds(items, i, g.last, i);
    SpanOf(items[i].address, g.end);
    if IsFull(items, g) {
      FullGroupMeetsAcross(items, i, L);
    }
    // The group itself is within the limit, so only the next mapping can have exceeded it.
    if g.last > i {
      GroupWithinLimit(items, i, L);
    }
    SpanOf(items[i].address, Larger(g.end, End(next)));
  }

  lemma GroupWithinLimit(items: seq<Mapping>, i: nat, L: Word16)
    requires i < |items| && NoneOversized(items, L) && NoneRunsOver(items) && !items[i].dataType.NoType?
    ensures var g := GroupAt(items, i, L); Span(items[i].address, g.end) <= L
  {
    var g := GroupAt(items, i, L);
    ExtendKeepsLength(items, i, i, items[i].address, End(items[i]), L);
    if IsSingle(items, g) {
      GroupShape(items, i, L);
      EndWithoutWrap(items[i]);
      SingleEnd(items, i, g.last);
      SpanOf(items[i].address, End(items[i]));
    }
  }

  lemma {:induction false} SingleEnd(items: seq<Mapping>, i: nat, j: nat)
    requires i <= j < |items| && forall k :: i < k <= j ==> items[k].dataType.NoType?
    ensures MaxEnd(items, i, j) == End(items[i])
    decreases j
  {
    if j > i {
      SingleEnd(items, i, j - 1);
    }
  }

  predicate Plain(items: seq<Mapping>, L: Word16) {
    NoneRunsOver(items) && NoGroupEnds(items) && NoneOversized(items, L) && !SpansEverything(items, L)
  }

  ghost predicate PairwiseApart(items: seq<Mapping>, groups: seq<Group>, L: Word16) {
    && (forall k :: 0 <= k < |groups| ==> groups[k].first < |items|)
    && forall a, b :: 0 <= a < b < |groups| ==> Apart(items[groups[a].first], items[groups[b].first], L)
  }

  /** Being apart from the next group's first mapping means being apart from all later ones. */
  lemma PairwiseApartCons(items: seq<Mapping>, g: Group, rest: seq<Group>, L: Word16)
    requires g.first < |items| && PairwiseApart(items, rest, L)
    requires rest != [] ==> Apart(items[g.first], items[rest[0].first], L)
                            && items[g.first].address <= items[rest[0].first].address
    ensures PairwiseApart(items, [g] + rest, L)
  {
    var groups := [g] + rest;
    forall a, b | 0 <= a < b < |groups|
      ensures Apart(items[groups[a].first], items[groups[b].first], L)
    {
      if a == 0 && b > 1 {
        assert Apart(items[rest[0].first], items[rest[b - 1].first], L);
      }
    }
  }

  lemma {:induction false} AllLeadersApart(items: seq<Mapping>, from: nat, L: Word16)
    requires Sorted(items) && Plain(items, L) && from <= |items|
    ensures PairwiseApart(items, GroupsFrom(items, from, L), L)
    decreases |items| - from
  {
    if from < |items| {
      if items[from].dataType.NoType? {
        AllLeadersApart(items, from + 1, L);
      } else {
        var g := GroupAt(items, from, L);
        var rest := GroupsFrom(items, g.last + 1, L);
        AllLeadersApart(items, g.last + 1, L);
        if g.last + 1 < |items| {
          LeadersApart(items, from, L);
          assert rest[0].first == g.last + 1;
        }
        PairwiseApartCons(items, g, rest, L);
      }
    }
  }

  lemma {:induction false} Pigeonhole(f: seq<nat>, n: nat)
    requires forall i :: 0 <= i < |f| ==> f[i] < n
    requires forall i, j :: 0 <= i < j < |f| ==> f[i] != f[j]
    ensures |f| <= n
    decreases n
  {
    if |f| > 0 {
      assert f[0] < n;
      if exists i :: 0 <= i < |f| && f[i] == n - 1 {
        var i :| 0 <= i < |f| && f[i] == n - 1;
        Pigeonhole(f[..i] + f[i + 1..], n - 1);
      } else {
        Pigeonhole(f, n - 1);
      }
    }
  }

  /** Which windows hold the first mappings of the groups. */
  lemma {:induction false} WindowsOfLeaders(items: seq<Mapping>, groups: seq<Group>, windows: seq<Window>, L: Word16)
    returns (f: seq<nat>)
    requires forall g :: g in groups ==> g.first < |items| && !items[g.first].dataType.NoType?
    requires IsCover(items, windows, L)
    ensures |f| == |groups|
    ensures forall i :: 0 <= i < |f| ==> f[i] < |windows| && Fits(items[groups[i].first], windows[f[i]])
  {
    if groups == [] {
      f := [];
    } else {
      f := WindowsOfLeaders(items, groups[..|groups| - 1], windows, L);
      var last := groups[|groups| - 1];
      assert last in groups;
      var n :| 0 <= n < |windows| && Fits(items[last.first], windows[n]);
      f := f + [n];
    }
  }

  /**
   With no flags, no oversized mapping and no wrapped span, the blocks are themselves a cover within
   the limit, and no cover by reads of at most L registers has fewer of them.
   */
  lemma FewestBlocks(items: seq<Mapping>, windows: seq<Window>, L: Word16)
    requires Sorted(items) && Plain(items, L) && IsCover(items, windows, L)
    ensures AllCovered(items, GroupsFrom(items, 0, L))
    ensures forall b :: b in Blocks(items, L) ==> b.quantity <= L
    ensures |Blocks(items, L)| <= |windows|
  {
    var groups := GroupsFrom(items, 0, L);
    CoverageWithoutOverrun(items, L);
    GroupsAreGroups(items, 0, L);
    forall b | b in Blocks(items, L)
      ensures b.quantity <= L
    {
      var k :| 0 <= k < |groups| && b == BlockOf(items, groups[k]);
      assert groups[k] in groups;
      GroupWithinLimit(items, groups[k].first, L);
    }
    AllLeadersApart(items, 0, L);
    var f := WindowsOfLeaders(items, groups, windows, L);
    forall i, j | 0 <= i < j < |f|
      ensures f[i] != f[j]
    {
      ApartDontShare(items[groups[i].first], items[groups[j].first], windows[f[i]], L);
    }
    Pigeonhole(f, |windows|);
  }
}
