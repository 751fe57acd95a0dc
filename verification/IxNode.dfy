/** One page of the disk B+ tree: the key and rid arrays of an `IxNodeHandle`, with the
    operations that search and shift them.

    Keys are integers.  Every index key is a byte string of one fixed length whose
    comparison is a total order in which equal means byte-equal, so it is determined by
    its rank in that order.  The page arrays have `order + 1` physical slots; slots at or
    above `num` still hold whatever was written there last, and the code can read them. */
module IxNode {

  type Key = int

  /** Position of a record; an internal node uses only `pageNo`, the child's page. */
  datatype Rid = Rid(pageNo: int, slotNo: int)

  const NO_PAGE: int := -1

  /** The key whose bytes are all zero, which is what a fresh page holds in every slot. */
  const ZERO_KEY: Key := 0

  datatype Node = Node(isLeaf: bool, num: nat, keys: seq<Key>, rids: seq<Rid>, parent: int, prev: int, next: int)

  /** A page as the buffer pool hands it out: all bytes zero. */
  function Fresh(order: nat): (n: Node)
    ensures Shaped(n, order) && n.num == 0
  {
    Node(false, 0, seq(order + 1, _ => ZERO_KEY), seq(order + 1, _ => Rid(0, 0)), 0, 0, 0)
  }

  predicate Shaped(n: Node, order: nat) {
    |n.keys| == order + 1 && |n.rids| == order + 1 && n.num <= order + 1
  }

  /** The first slot whose key counts: slot 0 of an internal node has no separator. */
  function First(n: Node): nat {
    if n.isLeaf then 0 else 1
  }

  ghost predicate Sorted(n: Node)
    requires n.num <= |n.keys|
  {
    forall i, j :: First(n) <= i < j < n.num ==> n.keys[i] < n.keys[j]
  }

  /** `pos` splits the used slots into the keys below `k` and the keys from `k` up. */
  ghost predicate InsertPoint(n: Node, k: Key, pos: int)
    requires n.num <= |n.keys|
  {
    && First(n) <= pos <= n.num
    && (forall i :: First(n) <= i < pos ==> n.keys[i] < k)
    && (forall i :: pos <= i < n.num ==> k <= n.keys[i])
  }

  /** Makes room at `pos` by moving the slots above it up by one. */
  function InsertAt(n: Node, pos: nat, k: Key, r: Rid): (m: Node)
    requires pos <= n.num < |n.keys| == |n.rids|
    ensures m == n.(num := n.num + 1, keys := m.keys, rids := m.rids)
    ensures |m.keys| == |n.keys| && |m.rids| == |n.rids|
    ensures forall i :: 0 <= i < pos ==> m.keys[i] == n.keys[i] && m.rids[i] == n.rids[i]
    ensures m.keys[pos] == k && m.rids[pos] == r
    ensures forall i :: pos < i <= n.num ==> m.keys[i] == n.keys[i - 1] && m.rids[i] == n.rids[i - 1]
  {
    var keys := n.keys[..pos] + [k] + n.keys[pos..n.num] + n.keys[n.num + 1..];
    var rids := n.rids[..pos] + [r] + n.rids[pos..n.num] + n.rids[n.num + 1..];
    assert forall i :: pos < i <= n.num ==> keys[i] == n.keys[pos..n.num][i - pos - 1];
    assert forall i :: pos < i <= n.num ==> rids[i] == n.rids[pos..n.num][i - pos - 1];
    n.(num := n.num + 1, keys := keys, rids := rids)
  }

  /** Closes the gap at `pos`; the last used slot keeps its old bytes. */
  function EraseAt(n: Node, pos: nat): (m: Node)
    requires pos < n.num <= |n.keys| == |n.rids|
    ensures m == n.(num := n.num - 1, keys := m.keys, rids := m.rids)
    ensures |m.keys| == |n.keys| && |m.rids| == |n.rids|
    ensures forall i :: 0 <= i < pos ==> m.keys[i] == n.keys[i] && m.rids[i] == n.rids[i]
    ensures forall i :: pos <= i < n.num - 1 ==> m.keys[i] == n.keys[i + 1] && m.rids[i] == n.rids[i + 1]
    ensures m.keys[n.num - 1] == n.keys[n.num - 1]
  {
    var keys := n.keys[..pos] + n.keys[pos + 1..n.num] + n.keys[n.num - 1..];
    var rids := n.rids[..pos] + n.rids[pos + 1..n.num] + n.rids[n.num - 1..];
    assert forall i :: pos <= i < n.num - 1 ==> keys[i] == n.keys[pos + 1..n.num][i - pos];
    assert forall i :: pos <= i < n.num - 1 ==> rids[i] == n.rids[pos + 1..n.num][i - pos];
    n.(num := n.num - 1, keys := keys, rids := rids)
  }

  /** `lower_bound`: binary search for the first key that is at least `target`.  When the
      searched range is empty the loop does not run and the probe reads slot `First(n)`
      although it is unused. */
  method LowerBound(n: Node, target: Key) returns (pos: int)
    requires n.num <= |n.keys| && 2 <= |n.keys|
    requires Sorted(n)
    ensures First(n) < n.num ==>
              if pos == -1 then InsertPoint(n, target, n.num) && n.keys[n.num - 1] < target
              else InsertPoint(n, target, pos) && pos < n.num
    ensures n.num <= First(n) ==> pos == if target <= n.keys[First(n)] then First(n) else -1
  {
    var l, r := First(n), n.num - 1;
    while l < r
      invariant First(n) <= l
      invariant First(n) < n.num ==> l <= r < n.num
      invariant n.num <= First(n) ==> l == First(n) && r == n.num - 1
      invariant forall i :: First(n) <= i < l ==> n.keys[i] < target
      invariant forall i :: r < i < n.num ==> 0 <= i && target <= n.keys[i]
      invariant 0 <= r < n.num - 1 ==> target <= n.keys[r]
    {
      var m := (l + r) / 2;
      if n.keys[m] < target { l := m + 1; } else { r := m; }
    }
    if target <= n.keys[l] { pos := l; } else { pos := -1; }
  }

  /** `upper_bound`: binary search for the first key above `target`. */
  method UpperBound(n: Node, target: Key) returns (pos: int)
    requires n.num <= |n.keys| && First(n) < n.num
    requires Sorted(n)
    ensures if pos == -1 then forall i :: First(n) <= i < n.num ==> n.keys[i] <= target
            else First(n) <= pos < n.num && (forall i :: First(n) <= i < pos ==> n.keys[i] <= target)
                 && (forall i :: pos <= i < n.num ==> target < n.keys[i])
  {
    var l, r := First(n), n.num - 1;
    while l < r
      invariant First(n) <= l <= r < n.num
      invariant forall i :: First(n) <= i < l ==> n.keys[i] <= target
      invariant forall i :: r < i < n.num ==> target < n.keys[i]
      invariant r < n.num - 1 ==> target < n.keys[r]
    {
      var m := (l + r) / 2;
      if n.keys[m] <= target { l := m + 1; } else { r := m; }
    }
    if target < n.keys[l] { pos := l; } else { pos := -1; }
  }
}
