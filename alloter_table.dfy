/**
 * The expectation table of `TestNodeDiskAlloter`: seven claims over the fixture
 * inventory, each with the disk-list length and the error flag the test
 * expects. Each row is proved for every result the allocation contract admits,
 * so it holds whichever node and disks an allocator picks.
 */
module AlloterTable {
  import opened Inventory
  import opened Fixture
  import opened Allocation

  datatype TestCase = TestCase(name: string, claim: Claim, expectedDiskListLength: nat, err: bool)

  const AutoSpc1: Claim := Claim(Real, "striped", [])
  const AutoSpc2: Claim := Claim(Real, "mirrored", [])
  const AutoSpc3: Claim := Claim(Sparse, "striped", [])
  const AutoSpc4: Claim := Claim(Sparse, "mirrored", [])
  const ManualSpc5: Claim := Claim(Sparse, "striped", ["disk1", "disk2", "disk3"])
  const ManualSpc6: Claim := Claim(Sparse, "mirrored", ["disk1", "disk2"])
  const ManualSpc7: Claim := Claim(Sparse, "mirrored", ["disk1", "disk7"])

  const Tests: seq<TestCase> := [
    TestCase("autoSPC1", AutoSpc1, 1, false),
    TestCase("autoSPC2", AutoSpc2, 2, false),
    TestCase("autoSPC3", AutoSpc3, 1, false),
    TestCase("autoSPC4", AutoSpc4, 2, false),
    TestCase("manualSPC5", ManualSpc5, 1, false),
    TestCase("manualSPC6", ManualSpc6, 2, false),
    TestCase("manualSPC7", ManualSpc7, 0, false)
  ]

  /** The disk list the test measures: the result's names, or none on an error. */
  function DiskList(r: Result<seq<string>>): seq<string> {
    if r.Ok? then r.value else []
  }

  /** The test's check: the error flag and the disk-list length are as expected. */
  predicate Passes(tc: TestCase, r: Result<seq<string>>) {
    r.Err? == tc.err && |DiskList(r)| == tc.expectedDiskListLength
  }

  /** Disk i of the fixture is found under its name. */
  lemma FixtureLookup(i: nat)
    requires i < DiskCount
    ensures Lookup(FixtureInventory(), DiskName(i)) == Some(FixtureDisk(i))
  {
    FixtureNames();
    LookupUnique(FixtureInventory(), i);
  }

  /** Automatic mode on the fixture: a node with enough disks of type t exists. */
  lemma FixtureAutoSatisfiable(t: DiskType, n: nat)
    requires 1 <= n <= 2
    ensures AutoSatisfiable(FixtureInventory(), t, n)
  {
    FixtureNames();
    FixtureNodeCounts(1);
    AutoSatisfiableIff(FixtureInventory(), t, n);
  }

  lemma AutoSpc1Row(r: Result<seq<string>>)
    requires Admissible(FixtureInventory(), AutoSpc1, r)
    ensures Passes(Tests[0], r)
  {
    FixtureAutoSatisfiable(Real, 1);
  }

  lemma AutoSpc2Row(r: Result<seq<string>>)
    requires Admissible(FixtureInventory(), AutoSpc2, r)
    ensures Passes(Tests[1], r)
  {
    FixtureAutoSatisfiable(Real, 2);
  }

  lemma AutoSpc3Row(r: Result<seq<string>>)
    requires Admissible(FixtureInventory(), AutoSpc3, r)
    ensures Passes(Tests[2], r)
  {
    FixtureAutoSatisfiable(Sparse, 1);
  }

  lemma AutoSpc4Row(r: Result<seq<string>>)
    requires Admissible(FixtureInventory(), AutoSpc4, r)
    ensures Passes(Tests[3], r)
  {
    FixtureAutoSatisfiable(Sparse, 2);
  }

  /** The named fixture disks all survive a manual list and all sit on one node. */
  lemma ManualOnNodeOne(list: seq<string>)
    requires forall nm :: nm in list ==> nm in ["disk1", "disk2", "disk3"]
    ensures forall nm :: nm in list ==> Usable(FixtureInventory(), nm)
    ensures AllOnNode(FixtureInventory(), Survivors(FixtureInventory(), list), 1, None)
  {
    assert DiskName(1) == "disk1" && DiskName(2) == "disk2" && DiskName(3) == "disk3";
    FixtureLookup(1);
    FixtureLookup(2);
    FixtureLookup(3);
  }

  /** A sequence that holds two different names has at least two elements. */
  lemma TwoDistinct(s: seq<string>, a: string, b: string)
    requires a in s && b in s && a != b
    ensures 2 <= |s|
  {
    var i :| 0 <= i < |s| && s[i] == a;
    var j :| 0 <= j < |s| && s[j] == b;
    assert i != j;
  }

  lemma ManualSpc5Row(r: Result<seq<string>>)
    requires Admissible(FixtureInventory(), ManualSpc5, r)
    ensures Passes(Tests[4], r)
  {
    var list := ManualSpc5.diskList;
    ManualOnNodeOne(list);
    assert "disk1" in Survivors(FixtureInventory(), list);
    assert ManualSatisfiable(FixtureInventory(), list, 1);
  }

  lemma ManualSpc6Row(r: Result<seq<string>>)
    requires Admissible(FixtureInventory(), ManualSpc6, r)
    ensures Passes(Tests[5], r)
  {
    var list := ManualSpc6.diskList;
    var s := Survivors(FixtureInventory(), list);
    ManualOnNodeOne(list);
    TwoDistinct(s, "disk1", "disk2");
    assert ManualSatisfiable(FixtureInventory(), list, 2);
  }

  /** disk1 is on node 1 and disk7 on node 2, so no node holds both. */
  lemma ManualSpc7Row()
    ensures !ManualSatisfiable(FixtureInventory(), ManualSpc7.diskList, 2)
    ensures forall r :: Admissible(FixtureInventory(), ManualSpc7, r) ==> Passes(Tests[6], r)
  {
    var inv := FixtureInventory();
    var list := ManualSpc7.diskList;
    var s := Survivors(inv, list);
    assert DiskName(1) == "disk1" && DiskName(7) == "disk7";
    FixtureLookup(1);
    FixtureLookup(7);
    assert "disk1" in s && "disk7" in s;
    forall nd: nat ensures !AllOnNode(inv, s, nd, None) {
      if nd == 1 {
        assert !Fits(inv, "disk7", nd, None);
      } else {
        assert !Fits(inv, "disk1", nd, None);
      }
    }
  }

  /**
   * Every row of the table passes for every admissible result: no row expects
   * an error, and the expected lengths are 1, 2, 1, 2, 1, 2 and 0.
   */
  lemma TableHolds(i: nat, r: Result<seq<string>>)
    requires i < |Tests|
    requires Admissible(FixtureInventory(), Tests[i].claim, r)
    ensures Passes(Tests[i], r)
    ensures !Tests[i].err
  {
    match i
    case 0 => AutoSpc1Row(r);
    case 1 => AutoSpc2Row(r);
    case 2 => AutoSpc3Row(r);
    case 3 => AutoSpc4Row(r);
    case 4 => ManualSpc5Row(r);
    case 5 => ManualSpc6Row(r);
    case 6 => ManualSpc7Row();
  }

  /** The allocator of the model passes the whole table. */
  lemma AllocatePassesTable(i: nat)
    requires i < |Tests|
    ensures UniqueNames(FixtureInventory())
      && Passes(Tests[i], Allocate(FixtureInventory(), Tests[i].claim))
  {
    FixtureNames();
    TableHolds(i, Allocate(FixtureInventory(), Tests[i].claim));
  }
}
