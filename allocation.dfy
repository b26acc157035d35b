/**
 * The allocation contract of `nodeDiskAlloter`: a storage pool claim and a disk
 * inventory determine how many disks the result holds, and which disks may be
 * in it, without fixing which node or which disks are chosen.
 */
module Allocation {
  import opened Inventory

  datatype AllocError = UnsupportedTopology(poolType: string)

  datatype Result<T> = Ok(value: T) | Err(error: AllocError)

  /**
   * A storage pool claim: the disk type wanted in automatic mode, the pool type
   * ("striped" or "mirrored") and the disk list; an empty list means automatic
   * mode, a non-empty one manual mode, in which the disk type is not consulted.
   */
  datatype Claim = Claim(diskType: DiskType, poolType: string, diskList: seq<string>)

  predicate IsManual(c: Claim) {
    |c.diskList| > 0
  }

  /** How many disks a pool of the given type needs. */
  function ReplicaCount(poolType: string): (r: Result<nat>)
    ensures r.Ok? <==> poolType == "striped" || poolType == "mirrored"
    ensures r.Ok? ==> 1 <= r.value
    ensures r.Err? ==> r.error == UnsupportedTopology(poolType)
  {
    if poolType == "striped" then Ok(1)
    else if poolType == "mirrored" then Ok(2)
    else Err(UnsupportedTopology(poolType))
  }

  /**
   * The disks a manual list may use: the listed names that resolve to an
   * active disk, each once, in list order.
   */
  function Survivors(inv: seq<Disk>, list: seq<string>): (r: seq<string>)
    ensures Distinct(r)
    ensures forall nm :: nm in r <==> nm in list && Usable(inv, nm)
    decreases |list|
  {
    if list == [] then []
    else
      var rest := Survivors(inv, list[..|list| - 1]);
      var last := list[|list| - 1];
      assert list == list[..|list| - 1] + [last];
      if Usable(inv, last) && last !in rest then
        assert forall i :: 0 <= i < |rest| ==> (rest + [last])[i] == rest[i];
        rest + [last]
      else rest
  }

  /** `names` are n distinct disks, all active, all on one node, all of type t if one is given. */
  ghost predicate Placement(inv: seq<Disk>, names: seq<string>, n: nat, t: Option<DiskType>) {
    |names| == n && Distinct(names) && exists nd: nat :: AllOnNode(inv, names, nd, t)
  }

  /** Automatic mode can be served: some placement of n disks of type t exists. */
  ghost predicate AutoSatisfiable(inv: seq<Disk>, t: DiskType, n: nat) {
    exists names :: Placement(inv, names, n, Some(t))
  }

  /** Manual mode can be served: there are n survivors and all survivors are on one node. */
  ghost predicate ManualSatisfiable(inv: seq<Disk>, list: seq<string>, n: nat) {
    var s := Survivors(inv, list);
    n <= |s| && exists nd: nat :: AllOnNode(inv, s, nd, None)
  }

  /**
   * What the allocator may return for claim c over inventory inv: the
   * UnsupportedTopology error for an unknown pool type; otherwise no error,
   * and either a placement of exactly the replica count (of the requested type
   * in automatic mode, drawn from the survivors of the list in manual mode)
   * when one can be made, or the empty list when none can.
   */
  ghost predicate Admissible(inv: seq<Disk>, c: Claim, r: Result<seq<string>>) {
    match ReplicaCount(c.poolType)
    case Err(e) => r == Err(e)
    case Ok(n) =>
      r.Ok? &&
      if IsManual(c) then
        if ManualSatisfiable(inv, c.diskList, n) then
          Placement(inv, r.value, n, None) &&
          forall nm :: nm in r.value ==> nm in Survivors(inv, c.diskList)
        else r.value == []
      else
        if AutoSatisfiable(inv, c.diskType, n) then Placement(inv, r.value, n, Some(c.diskType))
        else r.value == []
  }

  /** The result never holds a partial set: it is empty or has the replica count. */
  lemma AdmissibleLength(inv: seq<Disk>, c: Claim, r: Result<seq<string>>)
    requires Admissible(inv, c, r)
    ensures r.Err? <==> ReplicaCount(c.poolType).Err?
    ensures r.Ok? ==> |r.value| == 0 || |r.value| == ReplicaCount(c.poolType).value
    ensures r.Ok? && IsManual(c) ==> forall nm :: nm in r.value ==> nm in c.diskList
  {
  }

  /**
   * The first node, scanning the inventory from index k, that holds at least n
   * active disks of type t.
   */
  function FirstFitNode(inv: seq<Disk>, t: DiskType, n: nat, k: nat): (r: Option<nat>)
    requires k <= |inv|
    requires forall i :: 0 <= i < k ==> |OnNode(inv, Some(t), inv[i].node)| < n
    ensures r.Some? ==> n <= |OnNode(inv, Some(t), r.value)|
    ensures r.None? ==> forall i :: 0 <= i < |inv| ==> |OnNode(inv, Some(t), inv[i].node)| < n
    decreases |inv| - k
  {
    if k == |inv| then None
    else if n <= |OnNode(inv, Some(t), inv[k].node)| then Some(inv[k].node)
    else FirstFitNode(inv, t, n, k + 1)
  }

  /** Whether all names in s resolve to active disks on the node of the first one. */
  predicate ShareNode(inv: seq<Disk>, s: seq<string>) {
    s != [] &&
    match Lookup(inv, s[0])
    case Some(d) => AllOnNode(inv, s, d.node, None)
    case None => false
  }

  lemma ShareNodeIff(inv: seq<Disk>, s: seq<string>)
    requires s != [] && Usable(inv, s[0])
    ensures ShareNode(inv, s) <==> exists nd: nat :: AllOnNode(inv, s, nd, None)
  {
    if nd: nat :| AllOnNode(inv, s, nd, None) {
      assert Fits(inv, s[0], nd, None);
    }
  }

  /**
   * One allocator that meets the contract: in automatic mode the first n
   * matching disks of the first node (in inventory order) that has n of them;
   * in manual mode the first n survivors when all survivors share one node.
   */
  function Allocate(inv: seq<Disk>, c: Claim): (r: Result<seq<string>>)
    requires UniqueNames(inv)
    ensures Admissible(inv, c, r)
  {
    match ReplicaCount(c.poolType)
    case Err(e) => Err(e)
    case Ok(n) =>
      if IsManual(c) then
        var s := Survivors(inv, c.diskList);
        if n <= |s| && ShareNode(inv, s) then
          ManualPick(inv, c.diskList, n);
          Ok(s[..n])
        else
          ManualNone(inv, c.diskList, n);
          Ok([])
      else
        match FirstFitNode(inv, c.diskType, n, 0)
        case Some(nd) =>
          AutoPick(inv, c.diskType, n, nd);
          Ok(OnNode(inv, Some(c.diskType), nd)[..n])
        case None =>
          AutoNone(inv, c.diskType, n);
          Ok([])
  }

  lemma AutoPick(inv: seq<Disk>, t: DiskType, n: nat, nd: nat)
    requires UniqueNames(inv)
    requires n <= |OnNode(inv, Some(t), nd)|
    ensures AutoSatisfiable(inv, t, n)
    ensures Placement(inv, OnNode(inv, Some(t), nd)[..n], n, Some(t))
  {
    var listed := OnNode(inv, Some(t), nd);
    var names := listed[..n];
    OnNodeFits(inv, Some(t), nd);
    assert forall i :: 0 <= i < n ==> names[i] == listed[i];
    assert AllOnNode(inv, names, nd, Some(t));
    assert Placement(inv, names, n, Some(t));
  }

  lemma AutoNone(inv: seq<Disk>, t: DiskType, n: nat)
    requires 1 <= n
    requires forall i :: 0 <= i < |inv| ==> |OnNode(inv, Some(t), inv[i].node)| < n
    ensures !AutoSatisfiable(inv, t, n)
  {
    if names :| Placement(inv, names, n, Some(t)) {
      var nd: nat :| AllOnNode(inv, names, nd, Some(t));
      assert Fits(inv, names[0], nd, Some(t));
      var d := Lookup(inv, names[0]).value;
      var k :| 0 <= k < |inv| && inv[k] == d;
      PlacementBound(inv, names, nd, Some(t));
      assert false;
    }
  }

  lemma ManualPick(inv: seq<Disk>, list: seq<string>, n: nat)
    requires 1 <= n
    requires n <= |Survivors(inv, list)| && ShareNode(inv, Survivors(inv, list))
    ensures ManualSatisfiable(inv, list, n)
    ensures Placement(inv, Survivors(inv, list)[..n], n, None)
    ensures forall nm :: nm in Survivors(inv, list)[..n] ==> nm in Survivors(inv, list)
  {
    var s := Survivors(inv, list);
    ShareNodeIff(inv, s);
    var nd := Lookup(inv, s[0]).value.node;
    var names := s[..n];
    assert forall i :: 0 <= i < n ==> names[i] == s[i];
    assert AllOnNode(inv, names, nd, None);
  }

  lemma ManualNone(inv: seq<Disk>, list: seq<string>, n: nat)
    requires 1 <= n
    requires !(n <= |Survivors(inv, list)| && ShareNode(inv, Survivors(inv, list)))
    ensures !ManualSatisfiable(inv, list, n)
  {
    var s := Survivors(inv, list);
    if n <= |s| {
      ShareNodeIff(inv, s);
    }
  }

  /**
   * Automatic mode can be served exactly when some node holds at least n
   * active disks of the requested type.
   */
  lemma AutoSatisfiableIff(inv: seq<Disk>, t: DiskType, n: nat)
    requires UniqueNames(inv)
    ensures AutoSatisfiable(inv, t, n) <==> exists nd: nat :: n <= |OnNode(inv, Some(t), nd)|
  {
    if names :| Placement(inv, names, n, Some(t)) {
      var nd: nat :| AllOnNode(inv, names, nd, Some(t));
      PlacementBound(inv, names, nd, Some(t));
    }
    if nd: nat :| n <= |OnNode(inv, Some(t), nd)| {
      AutoPick(inv, t, n, nd);
    }
  }
}
