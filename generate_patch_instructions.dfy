/**
 * The in-place Windows repodata patch of `generate_patch_instructions.py`.
 * A package record is an object whose keys are fields; its `depends` list
 * is an object of its own, so that a shallow copy of the record shares it.
 * Each method is proved against the value-level functions of PatchSpec.
 */
module GeneratePatchInstructions {
  import opened Wrappers
  import opened Strings
  import opened PatchSpec

  /** A Python list of dependency strings, shared by every reference to it. */
  class DependList {
    var items: seq<string>

    constructor (items: seq<string>)
      ensures this.items == items
    {
      this.items := items;
    }

    /** `list.append`. */
    method Append(d: string)
      modifies this
      ensures items == old(items) + [d]
    {
      items := items + [d];
    }
  }

  /** A package record dictionary of the repodata. */
  class Record {
    var name: string
    var version: string
    const depends: DependList  // the list object bound to `depends`, never rebound here
    var features: Option<string>
    var trackFeatures: Option<string>
    var extra: map<string, string>

    constructor (v: RecordValue)
      ensures Value() == v && fresh(depends)
    {
      name, version := v.name, v.version;
      depends := new DependList(v.depends);
      features, trackFeatures, extra := v.features, v.trackFeatures, v.extra;
    }

    /** The record's contents, with the `depends` list read through its reference. */
    function Value(): RecordValue
      reads this, depends
    {
      RecordValue(name, version, depends.items, features, trackFeatures, extra)
    }

    /** `record.copy()`: a new dictionary holding the same `depends` list. */
    function Copy(): (c: ShallowCopy)
      reads this
      ensures c.depends == depends
    {
      ShallowCopy(name, version, depends, features, trackFeatures, extra)
    }
  }

  /** A shallow copy of a record: its keys, and a reference to the record's `depends` list. */
  datatype ShallowCopy = ShallowCopy(
    name: string,
    version: string,
    depends: DependList,
    features: Option<string>,
    trackFeatures: Option<string>,
    extra: map<string, string>)

  /** Python's `==` between a copy and a record: lists are compared by their current items. */
  predicate SameDict(c: ShallowCopy, r: Record)
    reads r, c.depends, r.depends
  {
    && c.name == r.name
    && c.version == r.version
    && c.depends.items == r.depends.items
    && c.features == r.features
    && c.trackFeatures == r.trackFeatures
    && c.extra == r.extra
  }

  /** What `_patch_repodata` returns. */
  datatype Instructions = Instructions(
    patchInstructionsVersion: int,
    packages: map<string, Record>,
    revoke: seq<string>,
    remove: seq<string>)

  const EMPTY_INSTRUCTIONS: Instructions := Instructions(1, map[], [], [])

  /**
   * `_extract_and_remove_vc_feature(record)`: returns the vc version and
   * rewrites or deletes `features` as ExtractVcFeature says.
   */
  method ExtractAndRemoveVcFeature(record: Record) returns (r: Result<Option<nat>, Error>)
    modifies record
    ensures Step(record.Value(), r) == ExtractVcFeature(old(record.Value()))
  {
    var features := Split(record.features.GetOr(""));
    var vcFeatures := VcTokens(features);
    if vcFeatures == [] {
      return Ok(None);
    }
    var nonVcFeatures := NotIn(features, vcFeatures);
    var vcVersion := ParseDecimal(vcFeatures[0][2..]);
    if vcVersion.None? {
      return Err(ValueError(vcFeatures[0][2..]));
    }
    if nonVcFeatures != [] {
      record.features := Some(Join(nonVcFeatures));
    } else {
      record.features := None;
    }
    return Ok(Some(vcVersion.value));
  }

  /**
   * One iteration of the loop in `_patch_repodata`: edits the record in
   * place and says whether it differs from the shallow copy taken before
   * the edit.
   */
  method PatchRecordInPlace(record: Record) returns (r: Result<bool, Error>)
    modifies record, record.depends
    ensures Step(record.Value(), r) == PatchRecord(old(record.Value()))
  {
    if record.name == "python" {
      var oldRecord := record.Copy();
      record.trackFeatures := None;
      if !HasVcDependency(record.depends.items) {
        var dep := PythonVcDependency(record.version);
        if dep.Err? {
          return Err(dep.error);
        }
        record.depends.Append(dep.value);
      }
      r := Ok(!SameDict(oldRecord, record));
    } else if Contains(record.features.GetOr(""), VC) {
      var oldRecord := record.Copy();
      var vcVersion := ExtractAndRemoveVcFeature(record);
      if vcVersion.Err? {
        return Err(vcVersion.error);
      }
      if !HasVcDependency(record.depends.items) {
        if vcVersion.value.None? {
          return Err(TypeError);
        }
        record.depends.Append(VcDependency(vcVersion.value.value));
      }
      r := Ok(!SameDict(oldRecord, record));
    } else {
      r := Ok(false);
    }
  }

  /** The records of the package map. */
  function Records(packages: map<string, Record>): set<Record> {
    set fn | fn in packages :: packages[fn]
  }

  /** The `depends` lists of the package map's records. */
  function DependLists(packages: map<string, Record>): set<DependList>
    reads Records(packages)
  {
    set fn | fn in packages :: packages[fn].depends
  }

  /** The contents of every record of the package map. */
  function Values(packages: map<string, Record>): (m: map<string, RecordValue>)
    reads Records(packages), DependLists(packages)
    ensures m.Keys == packages.Keys
  {
    map fn | fn in packages :: packages[fn].Value()
  }

  /**
   * Decoded JSON shares nothing: no two file names lead to the same record
   * or to the same `depends` list.
   */
  predicate Separate(packages: map<string, Record>)
    reads Records(packages)
  {
    forall fn, fn' :: fn in packages && fn' in packages && fn != fn' ==>
      packages[fn] != packages[fn'] && packages[fn].depends != packages[fn'].depends
  }

  /**
   * The loop of `_patch_repodata` over `repodata["packages"].items()`, in
   * any order: every record is patched in place; a record is reported, as
   * the very object that was edited, exactly when its patch says so; and
   * the loop raises exactly when some record's patch raises, leaving each
   * record either as it was or patched.
   */
  method PatchEachRecord(packages: map<string, Record>) returns (r: Result<map<string, Record>, Error>)
    requires Separate(packages)
    modifies Records(packages), DependLists(packages)
    ensures r.Ok? <==> AllSucceed(old(Values(packages)))
    ensures r.Ok? ==>
              && Values(packages) == PatchedValues(old(Values(packages)))
              && r.value.Keys == IncludedNames(old(Values(packages)))
              && forall fn <- r.value :: r.value[fn] == packages[fn]
    ensures r.Err? ==>
              && PartlyPatched(old(Values(packages)), Values(packages))
              && exists fn <- packages :: PatchRecord(old(Values(packages))[fn]).outcome == Err(r.error)
  {
    ghost var before := Values(packages);
    var todo := packages.Keys;
    var out: map<string, Record> := map[];
    while todo != {}
      invariant PassProgress(before, Values(packages), todo, out.Keys)
      invariant forall fn <- out :: out[fn] == packages[fn]
      decreases todo
    {
      var fn :| fn in todo;
      var record := packages[fn];
      ghost var now := Values(packages);
      var included := PatchRecordInPlace(record);
      ghost var after := Values(packages);
      ghost var expected := now[fn := record.Value()];
      forall g | g in packages
        ensures after[g] == expected[g]
      {
        if g != fn {
          assert packages[g] != record && packages[g].depends != record.depends;
        }
      }
      assert after.Keys == expected.Keys;
      assert after == expected;
      if included.Err? {
        PassFails(before, now, todo, out.Keys, fn);
        return Err(included.error);
      }
      PassStep(before, now, todo, out.Keys, fn);
      if included.value {
        out := out[fn := record];
      }
      todo := todo - {fn};
    }
    PassDone(before, Values(packages), out.Keys);
    r := Ok(out);
  }

  /**
   * `_patch_repodata(repodata, subdir)` on the package map
   * `repodata["packages"]`: off Windows nothing is touched and the empty
   * instructions come back; on Windows the instructions hold what
   * PatchEachRecord reports.
   */
  method PatchRepodata(packages: map<string, Record>, subdir: string) returns (r: Result<Instructions, Error>)
    requires Separate(packages)
    modifies Records(packages), DependLists(packages)
    ensures !StartsWith(subdir, WIN_PREFIX) ==>
              r == Ok(EMPTY_INSTRUCTIONS) && Values(packages) == old(Values(packages))
    ensures r.Ok? ==>
              && r.value.patchInstructionsVersion == 1
              && r.value.revoke == [] && r.value.remove == []
              && r.value.packages.Keys <= packages.Keys
              && forall fn <- r.value.packages :: r.value.packages[fn] == packages[fn]
    ensures StartsWith(subdir, WIN_PREFIX) ==>
              && (r.Ok? <==> AllSucceed(old(Values(packages))))
              && (r.Ok? ==>
                    && Values(packages) == PatchedValues(old(Values(packages)))
                    && r.value.packages.Keys == IncludedNames(old(Values(packages))))
              && (r.Err? ==>
                    && PartlyPatched(old(Values(packages)), Values(packages))
                    && exists fn <- packages :: PatchRecord(old(Values(packages))[fn]).outcome == Err(r.error))
  {
    var instructions := EMPTY_INSTRUCTIONS;
    if StartsWith(subdir, WIN_PREFIX) {
      var patched := PatchEachRecord(packages);
      if patched.Err? {
        return Err(patched.error);
      }
      instructions := instructions.(packages := patched.value);
    }
    return Ok(instructions);
  }

  /**
   * Running the patch a second time after a successful first run reports
   * no record and changes nothing further.
   */
  method PatchRepodataTwice(packages: map<string, Record>, subdir: string)
    returns (first: Result<Instructions, Error>, second: Result<Instructions, Error>)
    requires Separate(packages)
    modifies Records(packages), DependLists(packages)
    ensures first.Ok? ==> second.Ok? && second.value == EMPTY_INSTRUCTIONS
    ensures first.Ok? ==>
              Values(packages) ==
                if StartsWith(subdir, WIN_PREFIX) then PatchedValues(old(Values(packages))) else old(Values(packages))
  {
    ghost var before := Values(packages);
    first := PatchRepodata(packages, subdir);
    if first.Err? {
      second := first;
      return;
    }
    if StartsWith(subdir, WIN_PREFIX) {
      PatchPassIdempotent(before);
    }
    second := PatchRepodata(packages, subdir);
    assert second.value.packages.Keys == {};
  }
}
