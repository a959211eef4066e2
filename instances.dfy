/**
 * The registry of running core-service instances: a table from `int32`
 * IDs to instance records and an ID counter that starts at 1. Locking is
 * not modelled; every operation runs to completion before the next.
 *
 * The package manager, library manager and library index are opaque
 * references, the type parameters `PM`, `LM` and `LI`.
 */
module Instances {
  import opened InstanceTypes
  import opened UserAgentString

  /** The value held by one instance record at a given moment. */
  datatype Record<PM, LM, LI> = Record(pm: PM, lm: LM, li: LI)

  /** `coreInstance`: the three sub-resources of one instance; the setters assign its fields in place. */
  class CoreInstance<PM, LM, LI> {
    var pm: PM
    var lm: LM
    var li: LI

    constructor (pm: PM, lm: LM, li: LI)
      ensures Snapshot() == Record(pm, lm, li)
    {
      this.pm := pm;
      this.lm := lm;
      this.li := li;
    }

    function Snapshot(): (r: Record<PM, LM, LI>)
      reads this
    {
      Record(pm, lm, li)
    }
  }

  /** The package-level `instances` table and `instancesCount` counter. */
  class Registry<PM, LM, LI> {
    var instances: map<int32, CoreInstance<PM, LM, LI>>
    var instancesCount: int32
    /** `librariesindex.EmptyIndex`, the index every new instance starts with. */
    const EmptyIndex: LI
    /** Every ID `Create` has ever returned, deleted ones included. */
    ghost var Issued: set<int32>
    /** The registry and every record object it has allocated. */
    ghost var Repr: set<object>

    /**
     * Live IDs were all issued, every live record belongs to the registry,
     * and no two live IDs share a record.
     */
    ghost predicate Valid()
      reads this
    {
      && this in Repr
      && instances.Values <= Repr
      && instances.Keys <= Issued
      && forall a, b :: a in instances && b in instances && a != b ==> instances[a] != instances[b]
    }

    /**
     * The counter is positive and above every ID issued so far. The initial
     * state sets this up and every operation keeps it, except a `Create`
     * that finds the counter at `MaxInt32`.
     */
    ghost predicate CounterAhead()
      reads this
    {
      && 1 <= instancesCount
      && forall id :: id in Issued ==> 1 <= id < instancesCount
    }

    /** The abstract table: each live ID with the current contents of its record. */
    ghost function Table(): (t: map<int32, Record<PM, LM, LI>>)
      reads this, instances.Values
      ensures t.Keys == instances.Keys
    {
      map id | id in instances :: instances[id].Snapshot()
    }

    /** The initial package state: an empty table and the counter at 1. */
    constructor (emptyIndex: LI)
      ensures Valid() && CounterAhead() && fresh(Repr)
      ensures Table() == map[] && instancesCount == 1 && Issued == {}
      ensures EmptyIndex == emptyIndex
    {
      instances := map[];
      instancesCount := 1;
      EmptyIndex := emptyIndex;
      Issued := {};
      Repr := {this};
    }

    /** True exactly when the handle's ID keys a live record. */
    function IsValid(inst: Handle): (valid: bool)
      reads this, instances.Values
      ensures valid <==> GetId(inst) in Table()
    {
      GetId(inst) in instances
    }

    /** The record's package manager, or the invalid-instance error when the ID is not live. */
    function GetPackageManager(inst: Handle): (r: Result<PM>)
      reads this, instances.Values
      ensures r.Err? <==> !IsValid(inst)
      ensures r.Ok? ==> r.value == Table()[GetId(inst)].pm
    {
      var id := GetId(inst);
      if id !in instances then Err(InvalidInstanceError) else Ok(instances[id].pm)
    }

    /** The record's library manager, or the invalid-instance error when the ID is not live. */
    function GetLibraryManager(inst: Handle): (r: Result<LM>)
      reads this, instances.Values
      ensures r.Err? <==> !IsValid(inst)
      ensures r.Ok? ==> r.value == Table()[GetId(inst)].lm
    {
      var id := GetId(inst);
      if id !in instances then Err(InvalidInstanceError) else Ok(instances[id].lm)
    }

    /** The record's library index, or the invalid-instance error when the ID is not live. */
    function GetLibrariesIndex(inst: Handle): (r: Result<LI>)
      reads this, instances.Values
      ensures r.Err? <==> !IsValid(inst)
      ensures r.Ok? ==> r.value == Table()[GetId(inst)].li
    {
      var id := GetId(inst);
      if id !in instances then Err(InvalidInstanceError) else Ok(instances[id].li)
    }

    /**
     * `GetPackageManagerExplorer`: resolves the handle and, only when that
     * succeeds, opens an explorer on the package manager with `newExplorer`
     * (the package manager's `NewExplorer`).
     */
    function GetPackageManagerExplorer<E, R>(inst: Handle, newExplorer: PM -> (E, R)): (r: Scoped<E, R>)
      reads this, instances.Values
      ensures r.err.Some? <==> !IsValid(inst)
      ensures r.err.Some? ==> r == Scoped(None, None, Some(InvalidInstanceError))
      ensures r.err.None? ==>
                var (pme, release) := newExplorer(Table()[GetId(inst)].pm);
                r == Scoped(Some(pme), Some(release), None)
    {
      OpenScoped(GetPackageManager(inst), newExplorer)
    }

    /** `GetLibraryManagerExplorer`: as above, with the library manager's `NewExplorer`. */
    function GetLibraryManagerExplorer<E, R>(inst: Handle, newExplorer: LM -> (E, R)): (r: Scoped<E, R>)
      reads this, instances.Values
      ensures r.err.Some? <==> !IsValid(inst)
      ensures r.err.Some? ==> r == Scoped(None, None, Some(InvalidInstanceError))
      ensures r.err.None? ==>
                var (lme, release) := newExplorer(Table()[GetId(inst)].lm);
                r == Scoped(Some(lme), Some(release), None)
    {
      OpenScoped(GetLibraryManager(inst), newExplorer)
    }

    /** `GetLibraryManagerInstaller`: as above, with the library manager's `NewInstaller`. */
    function GetLibraryManagerInstaller<I, R>(inst: Handle, newInstaller: LM -> (I, R)): (r: Scoped<I, R>)
      reads this, instances.Values
      ensures r.err.Some? <==> !IsValid(inst)
      ensures r.err.Some? ==> r == Scoped(None, None, Some(InvalidInstanceError))
      ensures r.err.None? ==>
                var (lmi, release) := newInstaller(Table()[GetId(inst)].lm);
                r == Scoped(Some(lmi), Some(release), None)
    {
      OpenScoped(GetLibraryManager(inst), newInstaller)
    }

    /**
     * `SetLibrariesIndex`: replaces the index of a live record and reports
     * a missing one with the invalid-instance error.
     */
    method SetLibrariesIndex(inst: Handle, li: LI) returns (err: Option<Error>)
      requires Valid()
      modifies instances.Values
      ensures Valid()
      ensures instances == old(instances) && instancesCount == old(instancesCount) && Issued == old(Issued)
      ensures Repr == old(Repr)
      ensures err.Some? <==> !old(IsValid(inst))
      ensures err.Some? ==> err == Some(InvalidInstanceError) && Table() == old(Table())
      ensures err.None? ==>
                var id := GetId(inst);
                Table() == old(Table())[id := old(Table())[id].(li := li)]
      ensures err.None? ==> GetLibrariesIndex(inst) == Ok(li)
    {
      var id := GetId(inst);
      if id !in instances {
        return Some(InvalidInstanceError);
      }
      var i := instances[id];
      i.li := li;
      err := None;
      assert forall k :: k in instances && k != id ==> instances[k] != i;
    }

    /**
     * `SetLibraryManager`: replaces the library manager of a live record
     * and reports a missing one by returning false.
     */
    method SetLibraryManager(inst: Handle, lm: LM) returns (ok: bool)
      requires Valid()
      modifies instances.Values
      ensures Valid()
      ensures instances == old(instances) && instancesCount == old(instancesCount) && Issued == old(Issued)
      ensures Repr == old(Repr)
      ensures ok <==> old(IsValid(inst))
      ensures !ok ==> Table() == old(Table())
      ensures ok ==>
                var id := GetId(inst);
                Table() == old(Table())[id := old(Table())[id].(lm := lm)]
      ensures ok ==> GetLibraryManager(inst) == Ok(lm)
    {
      var id := GetId(inst);
      if id !in instances {
        return false;
      }
      var i := instances[id];
      i.lm := lm;
      ok := true;
      assert forall k :: k in instances && k != id ==> instances[k] != i;
    }

    /**
     * `Create`: builds a fresh record (package manager from the three
     * directories, "tmp" under the data directory and the user agent; a new
     * library manager; the empty index), stores it under the current counter
     * value, bumps the counter and returns a handle carrying that ID.
     * `join` stands for `Path.Join`, `buildPackageManager` for
     * `packagemanager.NewBuilder(...).Build()` and `newLibrariesManager` for
     * the result of `librariesmanager.NewBuilder().Build()`.
     */
    method Create<Path>(dataDir: Path, packagesDir: Path, downloadsDir: Path, extraUserAgent: seq<string>,
                        versionString: string, join: (Path, string) -> Path,
                        buildPackageManager: (Path, Path, Path, Path, string) -> PM,
                        newLibrariesManager: LM)
      returns (inst: Handle)
      requires Valid()
      modifies this
      ensures Valid()
      ensures inst == Instance(old(instancesCount))
      ensures instancesCount == Inc(old(instancesCount))
      ensures Issued == old(Issued) + {old(instancesCount)}
      ensures Table() == old(Table())[old(instancesCount) :=
                Record(buildPackageManager(dataDir, packagesDir, downloadsDir, join(dataDir, "tmp"),
                                           UserAgent(versionString, extraUserAgent)),
                       newLibrariesManager, EmptyIndex)]
      // The stored record is a new object that only the registry holds.
      ensures fresh(instances[GetId(inst)]) && fresh(Repr - old(Repr))
      ensures GetLibrariesIndex(inst) == Ok(EmptyIndex)
      // While the counter is ahead, the new ID is positive and above every ID
      // issued before, so it neither collides with a live one nor revives a
      // deleted one.
      ensures old(CounterAhead()) ==>
                && 1 <= GetId(inst)
                && (forall id :: id in old(Issued) ==> id < GetId(inst))
                && !old(IsValid(inst))
      // The counter stays ahead unless this call handed out MaxInt32 itself.
      ensures old(CounterAhead()) && old(instancesCount) < MaxInt32 ==> CounterAhead()
    {
      var userAgent := BuildUserAgent(versionString, extraUserAgent);
      var tempDir := join(dataDir, "tmp");
      var instance := new CoreInstance(buildPackageManager(dataDir, packagesDir, downloadsDir, tempDir, userAgent),
                                       newLibrariesManager, EmptyIndex);
      var id := instancesCount;
      instances := instances[id := instance];
      Issued := Issued + {id};
      Repr := Repr + {instance};
      instancesCount := Inc(instancesCount);
      inst := Instance(id);
    }

    /** `Delete`: removes a live record and says whether there was one; the counter never moves. */
    method Delete(inst: Handle) returns (deleted: bool)
      requires Valid()
      modifies this
      ensures Valid()
      ensures deleted <==> old(IsValid(inst))
      ensures Table() == old(Table()) - {GetId(inst)}
      ensures !IsValid(inst)
      ensures instancesCount == old(instancesCount) && Issued == old(Issued) && Repr == old(Repr)
    {
      var id := GetId(inst);
      if id !in instances {
        return false;
      }
      instances := instances - {id};
      deleted := true;
    }
  }

  /** Opens an accessor on a resolved sub-resource, or passes the lookup error on with nil accessor and release. */
  function OpenScoped<T, A, R>(resolved: Result<T>, open: T -> (A, R)): (r: Scoped<A, R>)
    ensures r.err.Some? <==> resolved.Err?
    ensures resolved.Err? ==> r == Scoped(None, None, Some(resolved.error))
    ensures resolved.Ok? ==> r.accessor == Some(open(resolved.value).0) && r.release == Some(open(resolved.value).1)
  {
    match resolved
    case Err(e) => Scoped(None, None, Some(e))
    case Ok(v) =>
      var (accessor, release) := open(v);
      Scoped(Some(accessor), Some(release), None)
  }

  /** ID 0, and so a nil handle, never resolves while the counter is ahead of every issued ID. */
  lemma ZeroNeverValid<PM, LM, LI>(reg: Registry<PM, LM, LI>, inst: Handle)
    requires reg.Valid() && reg.CounterAhead()
    requires GetId(inst) <= 0
    ensures !reg.IsValid(inst)
    ensures reg.GetPackageManager(inst) == Err(InvalidInstanceError)
  {
  }

  /**
   * Two creates in a row on a fresh registry return the handles 1 and 2,
   * and both are live afterwards.
   */
  method TwoCreatesOnFreshRegistry<PM, LM, LI, Path>(
    emptyIndex: LI, dataDir: Path, packagesDir: Path, downloadsDir: Path, versionString: string,
    join: (Path, string) -> Path, buildPackageManager: (Path, Path, Path, Path, string) -> PM,
    newLibrariesManager: LM)
    returns (first: Handle, second: Handle, bothValid: bool)
    ensures first == Instance(1) && second == Instance(2)
    ensures bothValid
  {
    var reg := new Registry<PM, LM, LI>(emptyIndex);
    first := reg.Create(dataDir, packagesDir, downloadsDir, [], versionString, join,
                        buildPackageManager, newLibrariesManager);
    second := reg.Create(dataDir, packagesDir, downloadsDir, [], versionString, join,
                         buildPackageManager, newLibrariesManager);
    bothValid := reg.IsValid(first) && reg.IsValid(second);
  }

  /**
   * Create, check, delete twice and look up again: the first handle is 1
   * and valid, 2 is not, the first delete succeeds, the second reports
   * false, and the deleted handle no longer resolves.
   */
  method CreateDeleteScenario<PM, LM, LI, Path>(
    emptyIndex: LI, dataDir: Path, packagesDir: Path, downloadsDir: Path, versionString: string,
    join: (Path, string) -> Path, buildPackageManager: (Path, Path, Path, Path, string) -> PM,
    newLibrariesManager: LM)
    returns (inst: Handle, validBefore: bool, otherValid: bool, deleted: bool, deletedAgain: bool,
             lookupAfter: Result<PM>)
    ensures inst == Instance(1)
    ensures validBefore && !otherValid
    ensures deleted && !deletedAgain
    ensures lookupAfter == Err(InvalidInstanceError)
  {
    var reg := new Registry<PM, LM, LI>(emptyIndex);
    inst := reg.Create(dataDir, packagesDir, downloadsDir, [], versionString, join,
                       buildPackageManager, newLibrariesManager);
    validBefore := reg.IsValid(inst);
    otherValid := reg.IsValid(Instance(2));
    deleted := reg.Delete(inst);
    deletedAgain := reg.Delete(inst);
    lookupAfter := reg.GetPackageManager(inst);
  }
}
