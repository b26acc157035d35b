/**
 * The test fixture `FakeDiskCreator`: 30 active disks over 5 nodes, 6 disks per
 * node, of which the first two on each node carry the label "sparse" and the
 * other four the label "disk".
 */
module Fixture {
  import opened Inventory
  import opened Decimal

  const DiskCount: nat := 30
  const DisksPerNode: nat := 6
  const SparsePerNode: nat := 2

  /** The name the fixture gives the disk at loop index `i`. */
  function DiskName(i: nat): string {
    "disk" + NatToString(i)
  }

  lemma DiskNameInjective(i: nat, j: nat)
    requires DiskName(i) == DiskName(j)
    ensures i == j
  {
    assert DiskName(i)[4..] == NatToString(i);
    assert DiskName(j)[4..] == NatToString(j);
    NatToStringInjective(i, j);
  }

  /** Closed form of the record the loop writes at index `i`. */
  function FixtureDisk(i: nat): Disk {
    Disk(DiskName(i), i / DisksPerNode + 1,
         if i % DisksPerNode < SparsePerNode then Sparse else Real, Active)
  }

  function FixturePrefix(k: nat): seq<Disk> {
    seq(k, i requires 0 <= i < k => FixtureDisk(i))
  }

  /** The whole inventory the fixture creates. */
  function FixtureInventory(): seq<Disk> {
    FixturePrefix(DiskCount)
  }

  /**
   * The fixture loop: it fills a 30-slot array, bumping the node counter at
   * every multiple of 6 and labelling a disk "sparse" while fewer than two
   * sparse disks have been created on the current node.
   */
  method FakeDiskCreator() returns (inventory: seq<Disk>)
    ensures inventory == FixtureInventory()
  {
    var diskObjectList := new Disk[DiskCount](_ => Disk("", 0, Real, Active));
    var sparseDiskCount: nat := 2;
    var diskLabel: DiskType := Real;
    var nodeIdentifier: nat := 0;
    for diskListIndex := 0 to DiskCount
      invariant nodeIdentifier == (diskListIndex + DisksPerNode - 1) / DisksPerNode
      invariant sparseDiskCount <= SparsePerNode
      invariant diskListIndex == 0 ==> sparseDiskCount == SparsePerNode
      invariant 0 < diskListIndex ==>
        sparseDiskCount == if (diskListIndex - 1) % DisksPerNode < SparsePerNode
                           then (diskListIndex - 1) % DisksPerNode + 1 else SparsePerNode
      invariant forall k :: 0 <= k < diskListIndex ==> diskObjectList[k] == FixtureDisk(k)
    {
      var diskIdentifier := NatToString(diskListIndex);
      if diskListIndex % DisksPerNode == 0 {
        nodeIdentifier := nodeIdentifier + 1;
        sparseDiskCount := 0;
      }
      if sparseDiskCount != SparsePerNode {
        diskLabel := Sparse;
        sparseDiskCount := sparseDiskCount + 1;
      } else {
        diskLabel := Real;
      }
      diskObjectList[diskListIndex] := Disk("disk" + diskIdentifier, nodeIdentifier, diskLabel, Active);
    }
    inventory := diskObjectList[..];
  }

  /** Exactly 30 disks, each active, disk i named "disk" + i, no name twice. */
  lemma FixtureNames()
    ensures |FixtureInventory()| == DiskCount
    ensures forall i :: 0 <= i < DiskCount ==>
      FixtureInventory()[i].name == DiskName(i) && FixtureInventory()[i].state == Active
    ensures UniqueNames(FixtureInventory())
  {
    var inv := FixtureInventory();
    forall i, j | 0 <= i < j < |inv| ensures inv[i].name != inv[j].name {
      if inv[i].name == inv[j].name {
        DiskNameInjective(i, j);
      }
    }
  }

  /**
   * The node counter steps up exactly when the index is a multiple of 6: the
   * first disk is on node 1, and each further disk is on the node of the disk
   * before it, or on the next node when its index is a multiple of 6.
   */
  lemma FixtureNodeSteps()
    ensures FixtureInventory()[0].node == 1
    ensures forall i :: 0 < i < DiskCount ==>
      (FixtureInventory()[i].node != FixtureInventory()[i - 1].node <==> i % DisksPerNode == 0)
    ensures forall i :: 0 < i < DiskCount ==>
      FixtureInventory()[i].node - FixtureInventory()[i - 1].node ==
      if i % DisksPerNode == 0 then 1 else 0
    ensures forall i :: 0 <= i < DiskCount ==> 1 <= FixtureInventory()[i].node <= 5
  {
  }

  function Clamp(x: int, hi: nat): nat {
    if x < 0 then 0 else if x > hi then hi else x
  }

  /**
   * Among the first k fixture disks, how many are on node nd in all, and of
   * each type.
   */
  lemma {:induction false} PrefixCounts(k: nat, nd: nat)
    ensures |OnNode(FixturePrefix(k), None, nd)| ==
      if 1 <= nd then Clamp(k - 6 * (nd - 1), 6) else 0
    ensures |OnNode(FixturePrefix(k), Some(Sparse), nd)| ==
      if 1 <= nd then Clamp(k - 6 * (nd - 1), 2) else 0
    ensures |OnNode(FixturePrefix(k), Some(Real), nd)| ==
      if 1 <= nd then Clamp(k - 6 * (nd - 1) - 2, 4) else 0
    decreases k
  {
    if k > 0 {
      var pre := FixturePrefix(k - 1);
      assert FixturePrefix(k)[..k - 1] == pre;
      PrefixCounts(k - 1, nd);
      var q, r := (k - 1) / 6, (k - 1) % 6;
      assert k - 1 == 6 * q + r;
      assert FixturePrefix(k)[k - 1] == FixtureDisk(k - 1);
    }
  }

  /** Each of the nodes 1..5 holds exactly 6 disks, 2 sparse and 4 real; no other node holds any. */
  lemma FixtureNodeCounts(nd: nat)
    ensures |OnNode(FixtureInventory(), None, nd)| == if 1 <= nd <= 5 then DisksPerNode else 0
    ensures |OnNode(FixtureInventory(), Some(Sparse), nd)| == if 1 <= nd <= 5 then SparsePerNode else 0
    ensures |OnNode(FixtureInventory(), Some(Real), nd)| ==
      if 1 <= nd <= 5 then DisksPerNode - SparsePerNode else 0
  {
    PrefixCounts(DiskCount, nd);
  }

  /**
   * A fixture disk is sparse exactly when fewer than two disks before it are
   * on its node: the first two disks of every node are the sparse ones.
   */
  lemma FixtureSparseFirstTwo(i: nat)
    requires i < DiskCount
    ensures FixtureInventory()[i].diskType == Sparse <==>
      |OnNode(FixtureInventory()[..i], None, FixtureInventory()[i].node)| < SparsePerNode
  {
    assert FixtureInventory()[..i] == FixturePrefix(i);
    PrefixCounts(i, i / 6 + 1);
  }
}
