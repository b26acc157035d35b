/**
 * The disk inventory the allocator reads: one record per disk object, with the
 * host node (the `kubernetes.io/hostname` label reduced to its node number),
 * the `ndm.io/disk-type` label and the disk's status.
 */
module Inventory {

  datatype Option<T> = None | Some(value: T)

  /** The two values of the disk-type label: "sparse" and "disk" (a real disk). */
  datatype DiskType = Sparse | Real

  datatype DiskState = Active | Inactive

  datatype Disk = Disk(name: string, node: nat, diskType: DiskType, state: DiskState)

  /** Disk object names are keys: no two disks in an inventory share one. */
  ghost predicate UniqueNames(inv: seq<Disk>) {
    forall i, j :: 0 <= i < j < |inv| ==> inv[i].name != inv[j].name
  }

  predicate Distinct(names: seq<string>) {
    forall i, j :: 0 <= i < j < |names| ==> names[i] != names[j]
  }

  /** Resolves a disk name against the inventory ("get disk by name"). */
  function Lookup(inv: seq<Disk>, name: string): (r: Option<Disk>)
    ensures r.Some? ==> r.value in inv && r.value.name == name
    ensures r.None? ==> forall d :: d in inv ==> d.name != name
  {
    if inv == [] then None
    else if inv[0].name == name then Some(inv[0])
    else Lookup(inv[1..], name)
  }

  lemma {:induction false} LookupUnique(inv: seq<Disk>, i: nat)
    requires UniqueNames(inv)
    requires i < |inv|
    ensures Lookup(inv, inv[i].name) == Some(inv[i])
  {
    if i > 0 {
      assert inv[0].name != inv[i].name;
      assert inv[1..][i - 1] == inv[i];
      LookupUnique(inv[1..], i - 1);
    }
  }

  /**
   * Whether disk `d` can back a pool on node `nd`: it is active, on that node,
   * and of type `t` when a type is requested.
   */
  predicate Matches(d: Disk, t: Option<DiskType>, nd: nat) {
    d.state == Active && d.node == nd && (t.None? || d.diskType == t.value)
  }

  /** Whether the disk named `name` exists and can back a pool on node `nd`. */
  predicate Fits(inv: seq<Disk>, name: string, nd: nat, t: Option<DiskType>) {
    match Lookup(inv, name)
    case Some(d) => Matches(d, t, nd)
    case None => false
  }

  predicate AllOnNode(inv: seq<Disk>, names: seq<string>, nd: nat, t: Option<DiskType>) {
    forall nm :: nm in names ==> Fits(inv, nm, nd, t)
  }

  /** Whether the disk named `name` exists and is active. */
  predicate Usable(inv: seq<Disk>, name: string) {
    match Lookup(inv, name)
    case Some(d) => d.state == Active
    case None => false
  }

  /**
   * The names, in inventory order, of the active disks on node `nd` that are of
   * type `t` (of any type when `t` is None).
   */
  function OnNode(inv: seq<Disk>, t: Option<DiskType>, nd: nat): (r: seq<string>)
    ensures |r| <= |inv|
    ensures forall nm :: nm in r ==> exists d :: d in inv && d.name == nm && Matches(d, t, nd)
    decreases |inv|
  {
    if inv == [] then []
    else
      var rest := OnNode(inv[..|inv| - 1], t, nd);
      var d := inv[|inv| - 1];
      if Matches(d, t, nd) then rest + [d.name] else rest
  }

  /** Every disk that matches is listed. */
  lemma {:induction false} OnNodeComplete(inv: seq<Disk>, t: Option<DiskType>, nd: nat, i: nat)
    requires i < |inv| && Matches(inv[i], t, nd)
    ensures inv[i].name in OnNode(inv, t, nd)
    decreases |inv|
  {
    if i < |inv| - 1 {
      var pre := inv[..|inv| - 1];
      assert pre[i] == inv[i];
      OnNodeComplete(pre, t, nd, i);
    }
  }

  /** With unique names, OnNode lists no name twice and every name it lists fits. */
  lemma {:induction false} OnNodeFits(inv: seq<Disk>, t: Option<DiskType>, nd: nat)
    requires UniqueNames(inv)
    ensures Distinct(OnNode(inv, t, nd))
    ensures AllOnNode(inv, OnNode(inv, t, nd), nd, t)
    decreases |inv|
  {
    if inv != [] {
      var pre := inv[..|inv| - 1];
      var d := inv[|inv| - 1];
      assert UniqueNames(pre) by {
        forall i, j | 0 <= i < j < |pre| ensures pre[i].name != pre[j].name {
          assert pre[i] == inv[i] && pre[j] == inv[j];
        }
      }
      OnNodeFits(pre, t, nd);
      var rest := OnNode(pre, t, nd);
      if Matches(d, t, nd) {
        forall nm | nm in rest ensures nm != d.name {
          var e :| e in pre && e.name == nm && Matches(e, t, nd);
          var k :| 0 <= k < |pre| && pre[k] == e;
          assert inv[k] == e;
        }
        var r := rest + [d.name];
        forall i, j | 0 <= i < j < |r| ensures r[i] != r[j] {
          if j == |r| - 1 {
            assert r[i] in rest;
          } else {
            assert r[i] == rest[i] && r[j] == rest[j];
          }
        }
      }
      forall nm | nm in OnNode(inv, t, nd) ensures Fits(inv, nm, nd, t) {
        var e :| e in inv && e.name == nm && Matches(e, t, nd);
        var k :| 0 <= k < |inv| && inv[k] == e;
        LookupUnique(inv, k);
      }
    }
  }

  /** A disk that fits node `nd` is listed by OnNode. */
  lemma FitsOnNode(inv: seq<Disk>, name: string, nd: nat, t: Option<DiskType>)
    requires Fits(inv, name, nd, t)
    ensures name in OnNode(inv, t, nd)
  {
    var d := Lookup(inv, name).value;
    var k :| 0 <= k < |inv| && inv[k] == d;
    OnNodeComplete(inv, t, nd, k);
  }

  lemma {:induction false} DistinctCard(names: seq<string>)
    requires Distinct(names)
    ensures |set nm | nm in names| == |names|
    decreases |names|
  {
    if names != [] {
      var pre := names[..|names| - 1];
      DistinctCard(pre);
      var last := names[|names| - 1];
      assert (set nm | nm in names) == (set nm | nm in pre) + {last};
      assert last !in (set nm | nm in pre) by {
        forall k | 0 <= k < |pre| ensures pre[k] != last {
          assert names[k] == pre[k];
        }
      }
    }
  }

  lemma {:induction false} SetCard(names: seq<string>)
    ensures |set nm | nm in names| <= |names|
    decreases |names|
  {
    if names != [] {
      var pre := names[..|names| - 1];
      SetCard(pre);
      assert (set nm | nm in names) == (set nm | nm in pre) + {names[|names| - 1]};
    }
  }

  /**
   * Pigeonhole: `names` distinct disks all fitting node `nd` are no more than
   * the matching disks OnNode lists for that node.
   */
  lemma PlacementBound(inv: seq<Disk>, names: seq<string>, nd: nat, t: Option<DiskType>)
    requires Distinct(names) && AllOnNode(inv, names, nd, t)
    ensures |names| <= |OnNode(inv, t, nd)|
  {
    var listed := OnNode(inv, t, nd);
    forall nm | nm in names ensures nm in listed {
      FitsOnNode(inv, nm, nd, t);
    }
    var a := set nm | nm in names;
    var b := set nm | nm in listed;
    assert a <= b;
    assert b == a + (b - a);
    DistinctCard(names);
    SetCard(listed);
  }
}
