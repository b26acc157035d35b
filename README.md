# Disk selection for storage pool claims: the fixture and the allocation contract

This project models two parts of the OpenEBS maya API server's disk-selection test for storage pool
claims. A storage pool claim (SPC) asks for one cStor pool on one node. It names a pool type:
`striped` needs one disk and `mirrored` needs two. It selects disks either automatically, by the
disk-type label (`sparse` or `disk`, a real disk), or manually, by an explicit list of disk names.

- **The disk fixture** (`Fixture`). `FakeDiskCreator` builds the inventory the test runs against:
  30 active disks over 5 nodes, 6 disks per node. Disk *i* is named `"disk" + i` and sits on node
  *i*/6 + 1. A node counter steps up at every index that is a multiple of 6. A sparse counter resets
  at each new node, so the first two disks of every node get the label `sparse` and the other four
  get `disk`. The model keeps the loop as a method that fills a 30-slot array with the same two
  counters. It is proved equal to a closed-form `FixtureInventory()`. Lemmas cover that inventory:
  the names are distinct, the nodes step up only at multiples of 6, each node holds 6 disks
  (2 sparse and 4 real), and the sparse disks are exactly the first two disks of each node.
- **The allocation contract** (`Allocation`, `AlloterTable`). The allocator `nodeDiskAlloter` is not
  part of this model. Its test fixes only the length of the returned disk list and whether an
  error came back. The model specifies the allocator by a predicate, `Admissible`. It says what any
  allocator may return for a claim over an inventory:
  - an unknown pool type gives the `UnsupportedTopology` error;
  - otherwise there is no error, and the result is either a placement or empty;
  - a placement is exactly the replica count of distinct, active disks, all on one node;
  - in automatic mode every placed disk has the requested type;
  - in manual mode every placed disk is one of the list's survivors;
  - the result is empty only when no such placement can be made.
  - In manual mode the survivors are the listed names that resolve to an active disk, each kept
    once. All the survivors must sit on one node.
- `Allocate` is one allocator that meets this contract, which shows the contract can be met. It is
  a pure function, so the same inventory and claim always give the same result. All seven rows of
  the test table are proved for *every* admissible result, not only for `Allocate`:
  - `autoSPC1`–`autoSPC4` give 1, 2, 1 and 2 disks;
  - `manualSPC5` and `manualSPC6` give 1 and 2 disks;
  - `manualSPC7` gives no disks, because disk1 is on node 1 and disk7 on node 2;
  - no row gives an error.

Modules:
- `Decimal`: the decimal rendering used for disk names, with its inverse.
- `Inventory`: disk records, lookup by name, and per-node filtering.
- `Fixture`: `FakeDiskCreator` and the fixture lemmas.
- `Allocation`: claims, the replica count, manual-list survivors, the `Admissible` contract and `Allocate`.
- `AlloterTable`: the seven test rows.

Differences between the design description and the code, resolved here by following the code:
- The label of a real disk is `disk`, not `real`.
- The test table has seven rows. The sparse/mirrored automatic row, `autoSPC4`, is included.
- In the manual rows the claim still carries `Type: "sparse"`. The model does not consult it.

## Model

| member | source | states |
|---|---|---|
| `Decimal.NatToString` | cmd/maya-apiserver/spc-watcher/select_disk_test.go:43 | the rendering of a loop index is a non-empty string of decimal digits, one digit exactly for indices below 10, with no leading zero |
| `Decimal.ParseNatToString` | cmd/maya-apiserver/spc-watcher/select_disk_test.go:43 | reading the rendering back as a decimal number gives the index again (round trip) |
| `Decimal.NatToStringInjective` | cmd/maya-apiserver/spc-watcher/select_disk_test.go:43 | different indices render to different strings |
| `Fixture.DiskNameInjective` | cmd/maya-apiserver/spc-watcher/select_disk_test.go:57 | two disks whose names `"disk" + index` agree have the same index |
| `Fixture.FakeDiskCreator` | cmd/maya-apiserver/spc-watcher/select_disk_test.go:29-73 | the counter-driven loop over a 30-slot array (node counter bumped and sparse counter reset at multiples of 6, label `sparse` while the sparse counter is below 2) yields exactly the closed-form fixture; the loop invariants also keep the sparse counter at most 2 |
| `Fixture.FixtureNames` | cmd/maya-apiserver/spc-watcher/select_disk_test.go:35-65 | the fixture has exactly 30 disks, disk i is named `"disk" + i`, every disk is Active, and no two disks share a name |
| `Fixture.FixtureNodeSteps` | cmd/maya-apiserver/spc-watcher/select_disk_test.go:41-59 | the first disk is on node 1; each later disk is on a different node from the one before it exactly when its index is a multiple of 6, and then on the next node; every disk is on a node 1 to 5 |
| `Fixture.PrefixCounts` | cmd/maya-apiserver/spc-watcher/select_disk_test.go:42-53 | among the first k fixture disks, the number on node n in total, of type `sparse` and of type `disk`, as a closed formula in k and n |
| `Fixture.FixtureNodeCounts` | cmd/maya-apiserver/spc-watcher/select_disk_test.go:42-60 | each of nodes 1 to 5 holds exactly 6 active disks, 2 sparse and 4 real; every other node holds none |
| `Fixture.FixtureSparseFirstTwo` | cmd/maya-apiserver/spc-watcher/select_disk_test.go:37-60 | a fixture disk is labelled `sparse` exactly when fewer than two earlier disks are on its node |
| `Allocation.ReplicaCount` | cmd/maya-apiserver/spc-watcher/select_disk_test.go:90-136 | `striped` and `mirrored` are the recognised pool types, each needing at least one disk; any other pool type is the UnsupportedTopology error naming it |
| `Allocation.Survivors` | cmd/maya-apiserver/spc-watcher/select_disk_test.go:138-181 | the survivors of a manual list hold no name twice, and a name survives exactly when it is in the list and resolves to an active disk |
| `Allocation.AdmissibleLength` | cmd/maya-apiserver/spc-watcher/select_disk_test.go:185-194 | an admissible result is an error exactly when the pool type is unknown, never holds a partial set (empty or exactly the replica count), and in manual mode uses only listed names |
| `Allocation.FirstFitNode` | cmd/maya-apiserver/spc-watcher/select_disk_test.go:90-136 | the scan returns a node holding at least n active disks of the type, or reports none only when no node of the inventory holds n of them |
| `Allocation.AutoSatisfiableIff` | cmd/maya-apiserver/spc-watcher/select_disk_test.go:90-136 | automatic mode admits a placement of n disks exactly when some node holds at least n active disks of the requested type |
| `Allocation.Allocate` | cmd/maya-apiserver/spc-watcher/select_disk_test.go:185 | over an inventory with unique names, the model's allocator returns an admissible result for every claim |
| `AlloterTable.AutoSpc1Row` | cmd/maya-apiserver/spc-watcher/select_disk_test.go:90-100 | every admissible result for a `disk`, `striped` claim over the fixture has no error and 1 disk |
| `AlloterTable.AutoSpc2Row` | cmd/maya-apiserver/spc-watcher/select_disk_test.go:102-112 | every admissible result for a `disk`, `mirrored` claim over the fixture has no error and 2 disks |
| `AlloterTable.AutoSpc3Row` | cmd/maya-apiserver/spc-watcher/select_disk_test.go:114-124 | every admissible result for a `sparse`, `striped` claim over the fixture has no error and 1 disk |
| `AlloterTable.AutoSpc4Row` | cmd/maya-apiserver/spc-watcher/select_disk_test.go:126-136 | every admissible result for a `sparse`, `mirrored` claim over the fixture has no error and 2 disks |
| `AlloterTable.ManualSpc5Row` | cmd/maya-apiserver/spc-watcher/select_disk_test.go:138-151 | every admissible result for the list [disk1, disk2, disk3] with `striped` has no error and 1 disk, though the list mixes sparse and real disks |
| `AlloterTable.ManualSpc6Row` | cmd/maya-apiserver/spc-watcher/select_disk_test.go:153-166 | every admissible result for the list [disk1, disk2] with `mirrored` has no error and 2 disks |
| `AlloterTable.ManualSpc7Row` | cmd/maya-apiserver/spc-watcher/select_disk_test.go:168-181 | the list [disk1, disk7] (disk1 on node 1, disk7 on node 2) with `mirrored` cannot be served because its survivors span two nodes, so every admissible result has no error and no disks |
| `AlloterTable.TableHolds` | cmd/maya-apiserver/spc-watcher/select_disk_test.go:81-197 | for every row of the table and every admissible result, the error flag and the disk-list length are the ones the row expects, and no row expects an error |
| `AlloterTable.AllocatePassesTable` | cmd/maya-apiserver/spc-watcher/select_disk_test.go:183-197 | the fixture has unique names and the model's allocator passes every row of the table |

## Left out

- The fake clientset's `Create` calls and the `glog.Error` logging of their failures are left out. `FakeDiskCreator` returns the inventory as a sequence instead of storing it in a client.
- The `clientSet` type and the body of `nodeDiskAlloter` are not part of this model. The contract `Admissible` does not fix which node or which disks are chosen, or their order, because the test checks only the length and the error flag. `Allocate` picks the first fitting node in inventory order. The design description orders candidates by ascending node identifier and disk name instead. Either order meets the contract.
- Kubernetes object scaffolding (`TypeMeta`, `ObjectMeta`, label keys) is left out. The host name `"gke-ashu-cstor-default-pool-a4065fd6-vxsh" + node` is reduced to the node number. The disk-type label is reduced to the two-valued `DiskType`.
- The claim's disk type is that same enum, so a claim whose type string is neither `sparse` nor `disk` is not modelled.
- Fixture.FakeDiskCreator: the Go array holds pointers to disk objects. The model's array holds disk values, so aliasing between slots is not modelled; no slot is written twice.
- `t.Run`, the `testing` harness and Go's random map iteration order over the table are left out. Each row is proved on its own.
- The fixture creates only Active disks, so the `Inactive` state is exercised only by the general contract, never by a table row.
- The design description suggests a diagnostic count of dropped manual names. It is not modelled.
- Inventories with two disks of one name are excluded by `Allocate`'s precondition. Cluster object names are unique, and the fixture's uniqueness is proved.
