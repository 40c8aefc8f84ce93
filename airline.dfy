/**
 * A fleet registry: airplanes keyed by name, and snapshots of the fleet saved to and merged
 * back from files.
 *
 * The file system is a value, a map from path to what the path holds; what a YAML document
 * parses to is given as a datatype, and whether a write fails is a parameter of the save.
 */
module Airlines {
  import opened Wrappers
  import opened Airplanes

  // ---------------------------------------------------------------------------------------
  // Snapshot file names

  const SnapshotSuffix := ".snap"

  /** `filename.endswith('.snap')`. */
  predicate HasSnapSuffix(filename: string) {
    |filename| >= |SnapshotSuffix| && filename[|filename| - |SnapshotSuffix|..] == SnapshotSuffix
  }

  /** The suffix test holds exactly for a string that is some text followed by `.snap`. */
  lemma HasSnapSuffixIff(filename: string)
    ensures HasSnapSuffix(filename) <==> exists stem :: filename == stem + SnapshotSuffix
  {
    if HasSnapSuffix(filename) {
      var stem := filename[..|filename| - |SnapshotSuffix|];
      assert filename == stem + SnapshotSuffix;
    }
  }

  predicate IsAsciiUpper(c: char) {
    'A' <= c <= 'Z'
  }

  function LowerChar(c: char): char {
    if IsAsciiUpper(c) then (c as int - 'A' as int + 'a' as int) as char else c
  }

  /** `name.lower().replace(' ', '_') + '.snap'`. */
  function DefaultSnapshotFilename(airlineName: string): (f: string)
    ensures |f| == |airlineName| + |SnapshotSuffix| && HasSnapSuffix(f)
    ensures forall i :: 0 <= i < |airlineName| ==> f[i] != ' ' && !IsAsciiUpper(f[i])
    ensures forall i :: 0 <= i < |airlineName| ==> (f[i] == '_' <==> airlineName[i] == ' ' || airlineName[i] == '_')
    ensures forall i :: 0 <= i < |airlineName| ==>
      f[i] == (if airlineName[i] == ' ' then '_'
               else if IsAsciiUpper(airlineName[i]) then (airlineName[i] as int + 32) as char
               else airlineName[i])
  {
    seq(|airlineName|, i requires 0 <= i < |airlineName| =>
      if airlineName[i] == ' ' then '_' else LowerChar(airlineName[i])) + SnapshotSuffix
  }

  lemma DefaultSnapshotFilenameExample()
    ensures DefaultSnapshotFilename("Test Airways") == "test_airways.snap"
  {
  }

  // ---------------------------------------------------------------------------------------
  // Files and their contents

  /** One item of a snapshot's plane list: a complete record, or one `from_dict` raises on. */
  datatype Entry = Record(record: AirplaneRecord) | Malformed

  /** What `yaml.safe_load` returns: nothing (or an empty value), a mapping, or anything else. */
  datatype Document =
    | Falsy
    | Mapping(airlineName: Option<string>, airplanes: Option<seq<Entry>>)
    | NotMapping

  datatype FileContent = Yaml(document: Document) | Unreadable

  type Files = map<string, FileContent>

  /**
   * How the environment answers a write: it succeeds, `open` fails, or the dump fails midway.
   * `open(..., 'w')` has already truncated the file by then, so `left` is whatever part of the
   * document reached the file: nothing (an empty file loads as `Falsy`), a prefix that still
   * parses, or text that does not.
   */
  datatype WriteResult = Written | OpenFailed | DumpFailed(left: FileContent)

  /** What `Airline.to_dict` produces. */
  datatype Snapshot = Snapshot(name: string, airplanes: seq<AirplaneRecord>)

  function EntriesOf(records: seq<AirplaneRecord>): (entries: seq<Entry>)
    ensures |entries| == |records| && forall i :: 0 <= i < |records| ==> entries[i] == Record(records[i])
  {
    seq(|records|, i requires 0 <= i < |records| => Record(records[i]))
  }

  /** The document `save_snapshot` writes for a snapshot. */
  function SnapshotDocument(d: Snapshot): Document {
    Mapping(Some(d.name), Some(EntriesOf(d.airplanes)))
  }

  /** The position of the first entry `from_dict` raises on, or the length if there is none. */
  function FirstMalformed(entries: seq<Entry>): (k: nat)
    ensures k <= |entries|
    ensures forall j :: 0 <= j < k ==> entries[j].Record?
    ensures k < |entries| ==> entries[k].Malformed?
  {
    if entries == [] || entries[0].Malformed? then 0 else 1 + FirstMalformed(entries[1..])
  }

  /** The records of the first `k` entries, all complete. */
  function RecordsUpTo(entries: seq<Entry>, k: nat): (records: seq<AirplaneRecord>)
    requires k <= |entries| && forall j :: 0 <= j < k ==> entries[j].Record?
    ensures |records| == k && forall j :: 0 <= j < k ==> records[j] == entries[j].record
  {
    seq(k, j requires 0 <= j < k => entries[j].record)
  }

  lemma RecordsUpToSnoc(entries: seq<Entry>, k: nat)
    requires k < |entries| && forall j :: 0 <= j <= k ==> entries[j].Record?
    ensures RecordsUpTo(entries, k + 1) == RecordsUpTo(entries, k) + [entries[k].record]
  {
  }

  /** One more entry merged: one more upsert. */
  lemma MergeStep(fleet: map<string, PlaneState>, order: seq<string>, entries: seq<Entry>, k: nat)
    requires k < |entries| && forall j :: 0 <= j <= k ==> entries[j].Record?
    ensures var before, r := RecordsUpTo(entries, k), entries[k].record;
      Merge(fleet, RecordsUpTo(entries, k + 1)) == Merge(fleet, before)[r.name := RecordState(r)] &&
      MergeOrder(order, RecordsUpTo(entries, k + 1)) ==
        (if r.name in MergeOrder(order, before) then MergeOrder(order, before) else MergeOrder(order, before) + [r.name]) &&
      Names(RecordsUpTo(entries, k + 1)) == Names(before) + {r.name}
  {
    var before, after := RecordsUpTo(entries, k), RecordsUpTo(entries, k + 1);
    RecordsUpToSnoc(entries, k);
    assert after[..k] == before;
    NamesSnoc(before, entries[k].record);
  }

  /** The plane list of a document, `data.get("airplanes", [])`. */
  function PlaneEntries(doc: Document): seq<Entry>
    requires doc.Mapping?
  {
    doc.airplanes.GetOr([])
  }

  /** Whether `load_snapshot` answers `true` for the file at `path`. */
  predicate LoadSucceeds(files: Files, path: string) {
    path in files && files[path].Yaml? &&
    match files[path].document
    case Falsy => true
    case NotMapping => false
    case Mapping(_, _) => FirstMalformed(PlaneEntries(files[path].document)) == |PlaneEntries(files[path].document)|
  }

  /** The records `load_snapshot` upserts, in order, from the file at `path`. */
  function LoadedRecords(files: Files, path: string): seq<AirplaneRecord> {
    if path in files && files[path].Yaml? && files[path].document.Mapping? then
      var entries := PlaneEntries(files[path].document);
      RecordsUpTo(entries, FirstMalformed(entries))
    else []
  }

  // ---------------------------------------------------------------------------------------
  // Merging records into a fleet

  function Names(records: seq<AirplaneRecord>): set<string> {
    set r | r in records :: r.name
  }

  /** Every plane is stored under its own name. */
  predicate KeyedByName(fleet: map<string, PlaneState>) {
    forall k :: k in fleet ==> fleet[k].name == k
  }

  /** The upserts of `load_snapshot`, one record after another; a later record wins. */
  function Merge(fleet: map<string, PlaneState>, records: seq<AirplaneRecord>): map<string, PlaneState>
    decreases |records|
  {
    if records == [] then fleet
    else
      var last := records[|records| - 1];
      Merge(fleet, records[..|records| - 1])[last.name := RecordState(last)]
  }

  /** The key order of a Python dict after the same upserts: new names go last. */
  function MergeOrder(order: seq<string>, records: seq<AirplaneRecord>): seq<string>
    decreases |records|
  {
    if records == [] then order
    else
      var last := records[|records| - 1];
      var before := MergeOrder(order, records[..|records| - 1]);
      if last.name in before then before else before + [last.name]
  }

  lemma NamesSnoc(records: seq<AirplaneRecord>, r: AirplaneRecord)
    ensures Names(records + [r]) == Names(records) + {r.name}
  {
    assert forall x :: x in records + [r] <==> x in records || x == r;
  }

  /** Merging adds exactly the records' names to the fleet's keys. */
  lemma {:induction false} MergeKeys(fleet: map<string, PlaneState>, records: seq<AirplaneRecord>)
    ensures Merge(fleet, records).Keys == fleet.Keys + Names(records)
    decreases |records|
  {
    if records != [] {
      var init := records[..|records| - 1];
      MergeKeys(fleet, init);
      assert records == init + [records[|records| - 1]];
      NamesSnoc(init, records[|records| - 1]);
    }
  }

  /** Planes whose names the records do not mention are kept as they were. */
  lemma {:induction false} MergeKeepsOthers(fleet: map<string, PlaneState>, records: seq<AirplaneRecord>, k: string)
    requires k !in Names(records)
    ensures k in Merge(fleet, records) <==> k in fleet
    ensures k in fleet ==> Merge(fleet, records)[k] == fleet[k]
    decreases |records|
  {
    if records != [] {
      var init := records[..|records| - 1];
      assert records == init + [records[|records| - 1]];
      NamesSnoc(init, records[|records| - 1]);
      MergeKeepsOthers(fleet, init, k);
    }
  }

  /** A plane mentioned by the records ends up with the state of the last record naming it. */
  lemma {:induction false} MergeLastWins(fleet: map<string, PlaneState>, records: seq<AirplaneRecord>, i: int)
    requires 0 <= i < |records|
    requires forall j :: i < j < |records| ==> records[j].name != records[i].name
    ensures records[i].name in Merge(fleet, records)
    ensures Merge(fleet, records)[records[i].name] == RecordState(records[i])
    decreases |records|
  {
    if i < |records| - 1 {
      MergeLastWins(fleet, records[..|records| - 1], i);
    }
  }

  /** Merging keeps every plane stored under its own name. */
  lemma {:induction false} MergeKeyedByName(fleet: map<string, PlaneState>, records: seq<AirplaneRecord>)
    requires KeyedByName(fleet)
    ensures KeyedByName(Merge(fleet, records))
    decreases |records|
  {
    if records != [] {
      MergeKeyedByName(fleet, records[..|records| - 1]);
    }
  }

  /** The key order stays free of duplicates and lists exactly the merged keys. */
  lemma {:induction false} MergeOrderSpec(order: seq<string>, records: seq<AirplaneRecord>)
    requires Distinct(order)
    ensures Distinct(MergeOrder(order, records))
    ensures forall k :: k in MergeOrder(order, records) <==> k in order || k in Names(records)
    ensures order <= MergeOrder(order, records)
    decreases |records|
  {
    if records != [] {
      var init := records[..|records| - 1];
      assert records == init + [records[|records| - 1]];
      NamesSnoc(init, records[|records| - 1]);
      MergeOrderSpec(order, init);
    }
  }

  /** `record` is what `to_dict` gives for the plane under `key`: its state, each seat once. */
  predicate ListsPlane(record: AirplaneRecord, fleet: map<string, PlaneState>, key: string) {
    key in fleet && RecordState(record) == fleet[key] && Distinct(record.reservedSeats)
  }

  /** `records` lists, in `order`, one record per plane of `fleet`, each describing that plane. */
  predicate Describes(records: seq<AirplaneRecord>, fleet: map<string, PlaneState>, order: seq<string>) {
    |records| == |order| &&
    forall i :: 0 <= i < |records| ==> order[i] in fleet && RecordState(records[i]) == fleet[order[i]]
  }

  /**
   * Merging the records of a whole fleet into any registry holding some of its planes gives
   * back exactly that fleet: deleted planes return and changed ones are reset. With the empty
   * registry this is the loading of a snapshot into a fresh airline.
   */
  lemma MergeRestores(current: map<string, PlaneState>, fleet: map<string, PlaneState>, order: seq<string>, records: seq<AirplaneRecord>)
    requires KeyedByName(fleet) && Distinct(order) && (forall k :: k in order <==> k in fleet)
    requires Describes(records, fleet, order)
    requires current.Keys <= fleet.Keys
    ensures Merge(current, records) == fleet
  {
    var merged := Merge(current, records);
    assert forall i :: 0 <= i < |records| ==> records[i].name == order[i];
    MergeKeys(current, records);
    assert Names(records) == fleet.Keys by {
      forall k | k in fleet ensures k in Names(records) {
        var i :| 0 <= i < |order| && order[i] == k;
        assert records[i] in records;
      }
    }
    forall k | k in fleet ensures merged[k] == fleet[k] {
      var i :| 0 <= i < |order| && order[i] == k;
      MergeLastWins(current, records, i);
    }
  }

  /** The content `save_snapshot` writes for a fleet: a mapping listing every plane, in order. */
  predicate HoldsSnapshotOf(content: FileContent, airlineName: string, fleet: map<string, PlaneState>, order: seq<string>) {
    content.Yaml? && content.document.Mapping? &&
    content.document.airlineName == Some(airlineName) && content.document.airplanes.Some? &&
    var entries := content.document.airplanes.value;
    FirstMalformed(entries) == |entries| && Describes(RecordsUpTo(entries, |entries|), fleet, order)
  }

  /** Remove the key `x` from a dict's key order. */
  function Remove(s: seq<string>, x: string): (r: seq<string>)
    ensures forall y :: y in r <==> y in s && y != x
    ensures Distinct(s) ==> Distinct(r)
  {
    if s == [] then []
    else if s[0] == x then Remove(s[1..], x)
    else
      assert Distinct(s) ==> s[0] !in s[1..];
      [s[0]] + Remove(s[1..], x)
  }

  /** The keys `Remove` keeps stay in their relative order. */
  lemma {:induction false} RemoveKeepsOrder(s: seq<string>, x: string)
    ensures Subsequence(Remove(s, x), s)
  {
    if s != [] {
      RemoveKeepsOrder(s[1..], x);
      var r := Remove(s, x);
      if s[0] == x {
        assert r != [] ==> r[0] in r && r[0] != s[0];
      } else {
        assert r[0] == s[0] && r[1..] == Remove(s[1..], x);
      }
    }
  }

  lemma DistinctKeysCard(order: seq<string>, keys: set<string>)
    ensures Distinct(order) && (forall k :: k in order <==> k in keys) ==> |order| == |keys|
  {
    if Distinct(order) && (forall k :: k in order <==> k in keys) {
      DistinctCard(order);
      assert Elems(order) == keys;
    }
  }

  // ---------------------------------------------------------------------------------------
  // The registry

  /** The state of each plane of a name-to-plane map. */
  function StatesOf(planes: map<string, Airplane>): map<string, PlaneState>
    reads planes.Values
  {
    map k | k in planes :: planes[k].State()
  }

  lemma StatesOfUpdate(planes: map<string, Airplane>, key: string, plane: Airplane)
    ensures StatesOf(planes[key := plane]) == StatesOf(planes)[key := plane.State()]
  {
  }

  /** `StatesOf` depends only on the planes it reads. */
  twostate lemma StatesOfUnchanged(planes: map<string, Airplane>)
    requires unchanged(planes.Values)
    ensures StatesOf(planes) == old(StatesOf(planes))
  {
  }

  lemma StatesOfRemove(planes: map<string, Airplane>, key: string)
    ensures StatesOf(planes - {key}) == StatesOf(planes) - {key}
  {
  }

  /** Every plane is stored under its own name, and `order` lists each key exactly once. */
  ghost predicate KeyedFleet(planes: map<string, Airplane>, order: seq<string>)
    reads planes.Values
  {
    (forall k :: k in planes ==> planes[k].name == k && planes[k].Valid()) &&
    Distinct(order) && (forall k :: k in order <==> k in planes)
  }

  /** Storing a plane under its name, appending a new name to the order, keeps the invariant. */
  lemma KeyedFleetUpsert(planes: map<string, Airplane>, order: seq<string>, plane: Airplane)
    requires KeyedFleet(planes, order) && plane.Valid()
    ensures KeyedFleet(planes[plane.name := plane], if plane.name in planes then order else order + [plane.name])
  {
    if plane.name !in planes {
      DistinctSnoc(order, plane.name);
    }
  }

  /** Dropping a key from both the planes and the order keeps the invariant. */
  lemma KeyedFleetRemove(planes: map<string, Airplane>, order: seq<string>, key: string)
    requires KeyedFleet(planes, order)
    ensures KeyedFleet(planes - {key}, Remove(order, key))
  {
  }

  class Airline {
    var name: string
    var airplanes: map<string, Airplane>
    /** The keys of `airplanes` in insertion order, as a Python dict keeps them. */
    var order: seq<string>
    var defaultSnapshotFilename: string

    /** Every plane is stored under its own name, and `order` lists each key once. */
    ghost predicate Valid()
      reads this, airplanes.Values
    {
      KeyedFleet(airplanes, order)
    }

    /** The state of every plane, by key. */
    function Fleet(): map<string, PlaneState>
      reads this, airplanes.Values
    {
      StatesOf(airplanes)
    }

    lemma FleetKeyedByName()
      requires Valid()
      ensures KeyedByName(Fleet())
    {
    }

    constructor (name: string)
      ensures Valid()
      ensures this.name == name && airplanes == map[] && order == []
      ensures defaultSnapshotFilename == DefaultSnapshotFilename(name)
    {
      this.name := name;
      this.airplanes := map[];
      this.order := [];
      this.defaultSnapshotFilename := DefaultSnapshotFilename(name);
    }

    /** `add_airplane`: refuses a name already present, and otherwise adds a new empty plane. */
    method AddAirplane(airplaneName: string, rowCount: int := DefaultRowCount, rowLayout: string := DefaultRowLayout)
      returns (ok: bool)
      requires Valid()
      modifies this`airplanes, this`order
      ensures Valid()
      ensures ok == (airplaneName !in old(airplanes))
      ensures Fleet() == if ok then old(Fleet())[airplaneName := PlaneState(airplaneName, rowCount, rowLayout, {})]
                         else old(Fleet())
      ensures order == if ok then old(order) + [airplaneName] else old(order)
      ensures ok ==> fresh(airplanes[airplaneName])
      ensures forall k :: k in old(airplanes) ==> k in airplanes && airplanes[k] == old(airplanes)[k]
    {
      if airplaneName in airplanes {
        return false;
      }
      var plane := new Airplane(airplaneName, rowCount, rowLayout);
      StatesOfUnchanged(airplanes);
      KeyedFleetUpsert(airplanes, order, plane);
      StatesOfUpdate(airplanes, airplaneName, plane);
      label Built:
      airplanes, order := airplanes[airplaneName := plane], order + [airplaneName];
      StatesOfUnchanged@Built(airplanes);
      return true;
    }

    /** `delete_airplane`: removes exactly the named plane, answering whether it was there. */
    method DeleteAirplane(airplaneName: string) returns (ok: bool)
      requires Valid()
      modifies this`airplanes, this`order
      ensures Valid()
      ensures ok == (airplaneName in old(airplanes))
      ensures airplanes == old(airplanes) - {airplaneName}
      ensures Fleet() == old(Fleet()) - {airplaneName}
      ensures order == Remove(old(order), airplaneName) && Subsequence(order, old(order))
    {
      RemoveKeepsOrder(order, airplaneName);
      if airplaneName in airplanes {
        KeyedFleetRemove(airplanes, order, airplaneName);
        StatesOfRemove(airplanes, airplaneName);
        airplanes, order := airplanes - {airplaneName}, Remove(order, airplaneName);
        StatesOfUnchanged(airplanes);
        return true;
      }
      assert airplanes - {airplaneName} == airplanes;
      RemoveAbsent(order, airplaneName);
      return false;
    }

    /** `get_airplane`: the plane stored under the name, or `None`. */
    function GetAirplane(airplaneName: string): (r: Option<Airplane>)
      reads this, airplanes.Values
      ensures r.Some? <==> airplaneName in airplanes
      ensures r.Some? ==> r.value == airplanes[airplaneName]
      ensures Valid() && r.Some? ==> r.value.name == airplaneName
    {
      if airplaneName in airplanes then Some(airplanes[airplaneName]) else None
    }

    /** `get_airplane_names`: every key once, in insertion order. */
    function GetAirplaneNames(): (names: seq<string>)
      reads this, airplanes.Values
      ensures Valid() ==> Distinct(names) && |names| == |airplanes|
      ensures Valid() ==> forall k :: k in names <==> k in airplanes
    {
      DistinctKeysCard(order, airplanes.Keys);
      order
    }

    /** `to_dict`: the airline's name and one record per plane, in key order. */
    method ToDict() returns (d: Snapshot)
      requires Valid()
      ensures d.name == name && Describes(d.airplanes, Fleet(), order)
      ensures forall j :: 0 <= j < |d.airplanes| ==> Distinct(d.airplanes[j].reservedSeats)
    {
      var records: seq<AirplaneRecord> := [];
      for i := 0 to |order|
        invariant |records| == i
        invariant forall j :: 0 <= j < i ==>
          order[j] in airplanes && RecordState(records[j]) == airplanes[order[j]].State() &&
          Distinct(records[j].reservedSeats)
      {
        var record := airplanes[order[i]].ToDict();
        records := records + [record];
      }
      assert forall j :: 0 <= j < |records| ==> ListsPlane(records[j], Fleet(), order[j]);
      d := Snapshot(name, records);
    }

    /**
     * `save_snapshot`: refuses a file name without the `.snap` suffix and writes nothing;
     * otherwise writes the fleet's snapshot, answering whether the write succeeded.
     */
    method SaveSnapshot(files: Files, snapshotFilename: Option<string>, write: WriteResult) returns (ok: bool, files': Files)
      requires Valid()
      ensures var path := snapshotFilename.GetOr(defaultSnapshotFilename);
        (ok <==> HasSnapSuffix(path) && write == Written) &&
        (!HasSnapSuffix(path) || write == OpenFailed ==> files' == files) &&
        (HasSnapSuffix(path) && write.DumpFailed? ==> files' == files[path := write.left]) &&
        (ok ==> path in files' && files' - {path} == files - {path} &&
                HoldsSnapshotOf(files'[path], name, Fleet(), order))
    {
      var path := snapshotFilename.GetOr(defaultSnapshotFilename);
      if !HasSnapSuffix(path) {
        return false, files;
      }
      var d := ToDict();
      match write
      case Written =>
        files' := files[path := Yaml(SnapshotDocument(d))];
        assert RecordsUpTo(EntriesOf(d.airplanes), |d.airplanes|) == d.airplanes;
        ok := true;
      case OpenFailed =>
        ok, files' := false, files;
      case DumpFailed(left) =>
        ok, files' := false, files[path := left];
    }

    /**
     * `load_snapshot`: a missing, unreadable or non-mapping file answers `false` and changes
     * nothing; otherwise each listed plane is upserted by name in turn, planes not listed are
     * kept, and a malformed entry stops the loop with `false`, keeping the upserts before it.
     */
    method LoadSnapshot(files: Files, snapshotFilename: Option<string>) returns (ok: bool)
      requires Valid()
      modifies this`airplanes, this`order
      ensures Valid()
      ensures var path := snapshotFilename.GetOr(defaultSnapshotFilename);
        ok == LoadSucceeds(files, path) &&
        Fleet() == Merge(old(Fleet()), LoadedRecords(files, path)) &&
        order == MergeOrder(old(order), LoadedRecords(files, path)) &&
        forall k :: k in old(airplanes) && k !in Names(LoadedRecords(files, path)) ==>
          k in airplanes && airplanes[k] == old(airplanes)[k]
    {
      var path := snapshotFilename.GetOr(defaultSnapshotFilename);
      if path !in files {
        return false;
      }
      match files[path]
      case Unreadable =>
        return false;
      case Yaml(doc) =>
        match doc
        case Falsy =>
          return true;
        case NotMapping =>
          return false;
        case Mapping(_, planes) =>
          ok := MergeEntries(planes.GetOr([]));
    }

    /**
     * The loop of `load_snapshot`: upserts each entry's plane by name in turn, and stops with
     * `false` at the first entry `from_dict` raises on, keeping the upserts before it.
     */
    method MergeEntries(entries: seq<Entry>) returns (ok: bool)
      requires Valid()
      modifies this`airplanes, this`order
      ensures Valid()
      ensures ok == (FirstMalformed(entries) == |entries|)
      ensures var records := RecordsUpTo(entries, FirstMalformed(entries));
        Fleet() == Merge(old(Fleet()), records) &&
        order == MergeOrder(old(order), records) &&
        forall k :: k in old(airplanes) && k !in Names(records) ==> k in airplanes && airplanes[k] == old(airplanes)[k]
    {
      ghost var fleet0, order0, planes0 := Fleet(), order, airplanes;
      for i := 0 to |entries|
        invariant Valid()
        invariant forall j :: 0 <= j < i ==> entries[j].Record?
        invariant Fleet() == Merge(fleet0, RecordsUpTo(entries, i))
        invariant order == MergeOrder(order0, RecordsUpTo(entries, i))
        invariant forall k :: k in planes0 && k !in Names(RecordsUpTo(entries, i)) ==>
                    k in airplanes && airplanes[k] == planes0[k]
      {
        match entries[i]
        case Malformed =>
          return false;
        case Record(record) =>
          var plane := Airplane.FromDict(record);
          Upsert(plane, record);
          MergeStep(fleet0, order0, entries, i);
      }
      return true;
    }

    /** One upsert of the loading loop. */
    method Upsert(plane: Airplane, ghost record: AirplaneRecord)
      requires Valid() && plane !in airplanes.Values
      requires plane.Valid() && plane.State() == RecordState(record)
      modifies this`airplanes, this`order
      ensures Valid()
      ensures Fleet() == old(Fleet())[plane.name := plane.State()]
      ensures order == if plane.name in old(order) then old(order) else old(order) + [plane.name]
      ensures airplanes == old(airplanes)[plane.name := plane]
    {
      KeyedFleetUpsert(airplanes, order, plane);
      StatesOfUpdate(airplanes, plane.name, plane);
      airplanes, order := airplanes[plane.name := plane], if plane.name in airplanes then order else order + [plane.name];
      StatesOfUnchanged(airplanes);
    }
  }

  lemma RemoveAbsent(s: seq<string>, x: string)
    requires x !in s
    ensures Remove(s, x) == s
  {
  }

  /**
   * The scenario of the `load_snapshot` documentation: save the fleet, delete a plane, load
   * the same file. The deleted plane is back and the whole fleet is as it was.
   */
  method SaveDeleteLoadRestores(a: Airline, files: Files, filename: string, victim: string)
    returns (saved: bool, loaded: bool, files': Files)
    requires a.Valid() && HasSnapSuffix(filename)
    modifies a`airplanes, a`order
    ensures saved && loaded
    ensures a.Valid()
    ensures victim in old(a.airplanes) ==> victim in a.airplanes
    ensures a.Fleet() == old(a.Fleet())
  {
    saved, files' := a.SaveSnapshot(files, Some(filename), Written);
    ghost var fleet, order := a.Fleet(), a.order;
    var deleted := a.DeleteAirplane(victim);
    loaded := a.LoadSnapshot(files', Some(filename));
    var entries := files'[filename].document.airplanes.value;
    assert LoadedRecords(files', filename) == RecordsUpTo(entries, |entries|);
    a.FleetKeyedByName();
    MergeRestores(fleet - {victim}, old(a.Fleet()), order, RecordsUpTo(entries, |entries|));
  }
}
