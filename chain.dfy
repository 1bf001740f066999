/**
 * The cluster-chain resolver (get_chain_fat16): follows 16-bit little-endian
 * links through an in-memory FAT16 table, starting at a file's first cluster.
 */
module Chain {
  import opened Bytes
  import opened Wrappers
  import opened Layout

  /**
   * The step bound of the model's walk. The source has none; ChainOfMeaning
   * shows that no terminating walk needs more steps, so the bound only cuts
   * off walks that loop forever in the source.
   */
  const MaxSteps: nat := 0xFFFE

  /** Cluster `c` has a link entry inside the table. */
  predicate InTable(fat: seq<byte>, c: nat)
  {
    2 * c + 2 <= |fat|
  }

  function Link(fat: seq<byte>, c: nat): uint16
    requires InTable(fat, c)
  {
    LE16(fat, 2 * c)
  }

  /** A free, reserved or bad-cluster link: the chain is broken. */
  predicate IsMarker(link: nat)
  {
    link == Fat16BadCluster || link == Fat16FreeCluster || link == 0x0001
  }

  predicate IsEnd(link: nat)
  {
    link >= Fat16EocMin
  }

  /**
   * `ch` is the chain that starts at `first`: every member has an in-table link
   * that is not a marker, each link but the last names the next member, and
   * the last link is an end-of-chain mark.
   */
  predicate IsChain(fat: seq<byte>, first: nat, ch: seq<uint16>)
  {
    && |ch| >= 1 && ch[0] == first
    && (forall i :: 0 <= i < |ch| ==> InTable(fat, ch[i]) && !IsMarker(Link(fat, ch[i])))
    && (forall i :: 0 <= i < |ch| - 1 ==>
          InTable(fat, ch[i]) && !IsEnd(Link(fat, ch[i])) && ch[i + 1] == Link(fat, ch[i]))
    && InTable(fat, ch[|ch| - 1]) && IsEnd(Link(fat, ch[|ch| - 1]))
  }

  function Prepend(p: seq<uint16>, o: Option<seq<uint16>>): Option<seq<uint16>>
  {
    match o
    case None => None
    case Some(s) => Some(p + s)
  }

  /** The walk from cluster `c`, bounds-checking each entry before reading it, for at most `fuel` clusters. */
  function Walk(fat: seq<byte>, c: uint16, fuel: nat): Option<seq<uint16>>
    decreases fuel
  {
    if fuel == 0 || !InTable(fat, c) then None
    else
      var link := Link(fat, c);
      if IsMarker(link) then None
      else if IsEnd(link) then Some([c])
      else Prepend([c], Walk(fat, link, fuel - 1))
  }

  lemma PrependPrepend(p: seq<uint16>, q: seq<uint16>, o: Option<seq<uint16>>)
    ensures Prepend(p, Prepend(q, o)) == Prepend(p + q, o)
    ensures Prepend([], o) == o
  {
    if o.Some? {
      assert (p + q) + o.value == p + (q + o.value);
      assert [] + o.value == o.value;
    }
  }

  /** The argument checks get_chain_fat16 makes before walking. */
  predicate Resolvable(fat: seq<byte>, first: uint16)
  {
    first >= 2 && |fat| % 2 == 0 && |fat| >= 4 && InTable(fat, first)
  }

  function ChainOf(fat: seq<byte>, first: uint16): Option<seq<uint16>>
  {
    if !Resolvable(fat, first) then None else Walk(fat, first, MaxSteps)
  }

  lemma {:induction false} WalkSound(fat: seq<byte>, c: uint16, fuel: nat)
    ensures Walk(fat, c, fuel).Some? ==>
            IsChain(fat, c, Walk(fat, c, fuel).value) && |Walk(fat, c, fuel).value| <= fuel
    decreases fuel
  {
    if fuel > 0 && InTable(fat, c) && !IsMarker(Link(fat, c)) && !IsEnd(Link(fat, c)) {
      var link := Link(fat, c);
      WalkSound(fat, link, fuel - 1);
      if Walk(fat, link, fuel - 1).Some? {
        var rest := Walk(fat, link, fuel - 1).value;
        var ch := [c] + rest;
        assert ch[1..] == rest;
        forall i | 0 <= i < |ch| - 1
          ensures InTable(fat, ch[i]) && !IsEnd(Link(fat, ch[i])) && ch[i + 1] == Link(fat, ch[i])
        {
          if i > 0 { assert ch[i] == rest[i - 1]; }
        }
      }
    }
  }

  lemma {:induction false} WalkComplete(fat: seq<byte>, c: uint16, ch: seq<uint16>, fuel: nat)
    requires IsChain(fat, c, ch) && |ch| <= fuel
    ensures Walk(fat, c, fuel) == Some(ch)
    decreases |ch|
  {
    if |ch| > 1 {
      var rest := ch[1..];
      assert rest[0] == Link(fat, c);
      forall i | 0 <= i < |rest| - 1
        ensures InTable(fat, rest[i]) && !IsEnd(Link(fat, rest[i])) && rest[i + 1] == Link(fat, rest[i])
      {
        assert rest[i] == ch[i + 1];
      }
      WalkComplete(fat, rest[0], rest, fuel - 1);
      assert !IsMarker(Link(fat, c)) && !IsEnd(Link(fat, c));
      assert Walk(fat, c, fuel) == Prepend([c], Walk(fat, rest[0], fuel - 1));
      assert ch == [c] + rest;
    } else {
      assert ch == [c];
    }
  }

  lemma {:induction false} ChainShift(fat: seq<byte>, first: nat, ch: seq<uint16>, i: nat, j: nat, d: nat)
    requires IsChain(fat, first, ch) && i < j && j + d < |ch| && ch[i] == ch[j]
    ensures ch[i + d] == ch[j + d]
    decreases d
  {
    if d > 0 {
      ChainShift(fat, first, ch, i, j, d - 1);
    }
  }

  /** A chain never revisits a cluster: a repeated cluster would repeat forever and never reach the end mark. */
  lemma ChainDistinct(fat: seq<byte>, first: nat, ch: seq<uint16>)
    requires IsChain(fat, first, ch)
    ensures forall i, j :: 0 <= i < j < |ch| ==> ch[i] != ch[j]
  {
    forall i, j | 0 <= i < j < |ch| ensures ch[i] != ch[j] {
      if ch[i] == ch[j] {
        var d := |ch| - 1 - j;
        ChainShift(fat, first, ch, i, j, d);
        assert false;
      }
    }
  }

  function Elements(s: seq<uint16>): set<int>
  {
    set x | x in s
  }

  lemma {:induction false} DistinctElements(s: seq<uint16>)
    requires forall i, j :: 0 <= i < j < |s| ==> s[i] != s[j]
    ensures |Elements(s)| == |s|
  {
    if s != [] {
      DistinctElements(s[1..]);
      assert Elements(s) == {s[0] as int} + Elements(s[1..]);
      assert s[0] !in Elements(s[1..]);
    }
  }

  /** A set of integers drawn from [lo, hi) has at most hi - lo members. */
  lemma {:induction false} BoundedSetSize(a: set<int>, lo: int, hi: int)
    requires lo <= hi && forall x :: x in a ==> lo <= x < hi
    ensures |a| <= hi - lo
    decreases hi - lo
  {
    if lo < hi {
      BoundedSetSize(a - {hi - 1}, lo, hi - 1);
    } else {
      assert forall x :: x !in a;
      assert a == {};
    }
  }

  /**
   * Every member of a chain from a cluster >= 2 is a distinct value in
   * [2, 65535], so a chain has at most 65534 members: the source's 16-bit
   * counter never wraps on a walk that ends.
   */
  lemma ChainLength(fat: seq<byte>, first: nat, ch: seq<uint16>)
    requires IsChain(fat, first, ch) && first >= 2
    ensures |ch| <= MaxSteps
  {
    ChainDistinct(fat, first, ch);
    DistinctElements(ch);
    forall x | x in Elements(ch) ensures 2 <= x < 0x1_0000 {
      var i :| 0 <= i < |ch| && ch[i] == x;
      if i > 0 { assert ch[i] == Link(fat, ch[i - 1]); }
    }
    BoundedSetSize(Elements(ch), 2, 0x1_0000);
  }

  /**
   * The resolver yields a chain exactly when the argument checks pass and the
   * links from the first cluster reach an end mark without meeting a marker or
   * leaving the table; the chain it yields is that one. Anything else is no
   * chain here, and in the source either NULL or a walk that never returns.
   */
  lemma ChainOfMeaning(fat: seq<byte>, first: uint16, ch: seq<uint16>)
    ensures ChainOf(fat, first) == Some(ch) <==> Resolvable(fat, first) && IsChain(fat, first, ch)
  {
    if Resolvable(fat, first) {
      WalkSound(fat, first, MaxSteps);
      if IsChain(fat, first, ch) {
        ChainLength(fat, first, ch);
        WalkComplete(fat, first, ch, MaxSteps);
      }
    }
  }

  /** Every member of a resolved chain is a data cluster number (at least 2) whose link lies in the table. */
  lemma ChainMembers(fat: seq<byte>, first: uint16, ch: seq<uint16>)
    requires ChainOf(fat, first) == Some(ch)
    ensures |ch| >= 1 && ch[0] == first
    ensures forall i :: 0 <= i < |ch| ==> ch[i] >= 2 && InTable(fat, ch[i])
  {
    ChainOfMeaning(fat, first, ch);
    forall i | 0 <= i < |ch| ensures ch[i] >= 2 {
      if i > 0 { assert ch[i] == Link(fat, ch[i - 1]); }
    }
  }

  /** A cluster whose link points back at itself has no chain: the source loops forever on it. */
  lemma SelfLinkHasNoChain(fat: seq<byte>, c: uint16, ch: seq<uint16>)
    requires InTable(fat, c) && Link(fat, c) == c && !IsMarker(c) && !IsEnd(c)
    ensures !IsChain(fat, c, ch)
  {
    if IsChain(fat, c, ch) {
      assert |ch| >= 2;  // otherwise the last link would be Link(fat, c) == c, not an end mark
      assert ch[1] == c;
      ChainDistinct(fat, c, ch);
    }
  }

  /** The links 5 -> 6 -> 7 -> end resolve to [5, 6, 7]; a free, reserved (0x0001) or bad-cluster (0xFFF7) link after them resolves to nothing. */
  lemma ExampleChain(fat: seq<byte>)
    requires |fat| % 2 == 0 && |fat| >= 16
    requires LE16(fat, 10) == 6 && LE16(fat, 12) == 7
    ensures LE16(fat, 14) == 0xFFFF ==> ChainOf(fat, 5) == Some([5, 6, 7])
    ensures LE16(fat, 14) == 0x0000 ==> ChainOf(fat, 5) == None
    ensures LE16(fat, 14) == 0x0001 ==> ChainOf(fat, 5) == None
    ensures LE16(fat, 14) == 0xFFF7 ==> ChainOf(fat, 5) == None
  {
    if LE16(fat, 14) == 0xFFFF {
      assert IsChain(fat, 5, [5, 6, 7]);
      ChainOfMeaning(fat, 5, [5, 6, 7]);
    }
  }

  /** get_chain_fat16: a first walk counts the chain, a second walk fills an array of that many clusters. */
  method GetChainFat16(fat: seq<byte>, first: uint16) returns (r: Option<seq<uint16>>)
    ensures r == ChainOf(fat, first)
  {
    if first < 2 || |fat| % 2 != 0 || |fat| < 4 {
      return None;
    }
    var offset: nat := first * 2;
    if offset + 2 > |fat| {
      return None;
    }
    var count: nat := 1;
    ghost var cluster: uint16 := first;
    ghost var path: seq<uint16> := [];
    PrependPrepend([], [], Walk(fat, first, MaxSteps));
    while true
      invariant offset == 2 * cluster && count == |path| + 1 <= MaxSteps
      invariant Walk(fat, first, MaxSteps) == Prepend(path, Walk(fat, cluster, MaxSteps - |path|))
      decreases MaxSteps - count
    {
      // The source reads the entry before this check; the model checks first.
      if offset + 2 > |fat| {
        return None;
      }
      var current := LE16(fat, offset);
      if current == Fat16BadCluster || current == Fat16FreeCluster || current == 0x0001 {
        return None;
      }
      if current >= Fat16EocMin {
        break;
      }
      if count == MaxSteps {
        return None;
      }
      ghost var rest := Walk(fat, current, MaxSteps - |path| - 1);
      assert Walk(fat, cluster, MaxSteps - |path|) == Prepend([cluster], rest);
      PrependPrepend(path, [cluster], rest);
      path := path + [cluster];
      cluster := current;
      offset := current * 2;
      count := count + 1;
    }
    ghost var ch := path + [cluster];
    assert Walk(fat, cluster, MaxSteps - |path|) == Some([cluster]);
    assert Walk(fat, first, MaxSteps) == Some(ch);
    WalkSound(fat, first, MaxSteps);
    var clusters := FillChain(fat, first, count, ch);
    r := Some(clusters);
  }

  /** The second pass of get_chain_fat16: re-walk `count` links from `first` into a fresh array. */
  method FillChain(fat: seq<byte>, first: uint16, count: nat, ghost ch: seq<uint16>) returns (s: seq<uint16>)
    requires IsChain(fat, first, ch) && count == |ch|
    ensures s == ch
  {
    var clusters := new uint16[count];
    var curr: uint16 := first;
    for i := 0 to count
      invariant i < count ==> curr == ch[i]
      invariant clusters[..i] == ch[..i]
    {
      clusters[i] := curr;
      if i < count - 1 {
        assert InTable(fat, ch[i]) && ch[i + 1] == Link(fat, ch[i]);
        curr := LE16(fat, 2 * curr);
      }
      assert clusters[..i + 1] == ch[..i + 1];
    }
    assert clusters[..] == clusters[..count];
    assert ch[..count] == ch;
    s := clusters[..];
  }
}
