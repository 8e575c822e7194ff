/**
 * The search flow of search-instances.py: build one record per listed
 * instance, index them in a Table, resolve the queries against it, and lay
 * the matched records out as export columns and rows.
 */
module FleetSearch {
  import opened Common
  import opened InstanceTable
  import opened QueryInput

  /** What the provider lists for one instance; `tags` is None for an instance without tags. */
  datatype Instance = Instance(id: string, publicIp: Cell, privateIp: Cell, tags: Option<seq<Tag>>, state: string)

  /** The five leading export columns, in order. */
  const FixedColumns: seq<string> := ["Instance_id", "Public_ip", "Private_ip", "hostname", "Instance_state"]

  function TagsOrEmpty(tags: Option<seq<Tag>>): seq<Tag>
  {
    if tags.Some? then tags.value else []
  }

  // ---------------------------------------------------------------------------
  // hostname: the value of the first `Name` tag

  function NameTag(tags: seq<Tag>): Cell
  {
    if tags == [] then None
    else if tags[0].key == "Name" then Some(tags[0].value)
    else NameTag(tags[1..])
  }

  lemma {:induction false} NameTagSpec(tags: seq<Tag>)
    ensures NameTag(tags).None? <==> forall i :: 0 <= i < |tags| ==> tags[i].key != "Name"
    ensures NameTag(tags).Some? ==>
      exists i :: 0 <= i < |tags| && tags[i].key == "Name" && NameTag(tags).value == tags[i].value &&
                  forall j :: 0 <= j < i ==> tags[j].key != "Name"
  {
    if tags != [] && tags[0].key != "Name" {
      NameTagSpec(tags[1..]);
      if NameTag(tags).Some? {
        var i :| 0 <= i < |tags| - 1 && tags[1..][i].key == "Name" && NameTag(tags).value == tags[1..][i].value &&
                 forall j :: 0 <= j < i ==> tags[1..][j].key != "Name";
        assert forall j :: 1 <= j < i + 1 ==> tags[j] == tags[1..][j - 1];
        assert tags[i + 1].key == "Name";
      } else {
        assert forall i :: 1 <= i < |tags| ==> tags[i] == tags[1..][i - 1];
      }
    }
  }

  /** The hostname loop as written: iterating over a None tag list raises TypeError. */
  function HostNameAsWritten(tags: Option<seq<Tag>>): Result<Cell, string>
  {
    if tags.None? then Err("TypeError: 'NoneType' object is not iterable") else Ok(NameTag(tags.value))
  }

  /**
   * An instance without tags stops the whole search in the hostname loop,
   * although dict_format treats the same None as "no tags"; wherever the loop
   * as written succeeds, the corrected one gives the same name.
   */
  lemma UntaggedInstanceAborts(tags: Option<seq<Tag>>)
    ensures HostNameAsWritten(None).Err?
    ensures TagDict(TagsOrEmpty(None)) == map[] && NameTag(TagsOrEmpty(None)) == None
    ensures HostNameAsWritten(tags).Ok? ==> HostNameAsWritten(tags).value == NameTag(TagsOrEmpty(tags))
  {
  }

  /**
   * The hostname loop, with the None guard dict_format already has: the
   * value of the first `Name` tag, or None.
   */
  method FindHostName(tags: Option<seq<Tag>>) returns (instanceName: Cell)
    ensures instanceName == NameTag(TagsOrEmpty(tags))
  {
    var tagList := TagsOrEmpty(tags);
    instanceName := None;
    var i := 0;
    while i < |tagList|
      invariant 0 <= i <= |tagList|
      invariant NameTag(tagList) == NameTag(tagList[i..])
    {
      assert tagList[i..][0] == tagList[i] && tagList[i..][1..] == tagList[i + 1..];
      if tagList[i].key == "Name" {
        instanceName := Some(tagList[i].value);
        break;
      }
      i := i + 1;
    }
  }

  // ---------------------------------------------------------------------------
  // dict_format

  /** The dict a tag list flattens to: later tags overwrite earlier ones with the same key. */
  function TagDict(tags: seq<Tag>): map<string, string>
  {
    if tags == [] then map[]
    else TagDict(tags[..|tags| - 1])[tags[|tags| - 1].key := tags[|tags| - 1].value]
  }

  /** tags[i] is the last tag with key `k`. */
  predicate IsLastTag(tags: seq<Tag>, k: string, i: int)
  {
    0 <= i < |tags| && tags[i].key == k && forall j :: i < j < |tags| ==> tags[j].key != k
  }

  lemma {:induction false} TagDictKeys(tags: seq<Tag>, k: string)
    ensures k in TagDict(tags) <==> exists i :: 0 <= i < |tags| && tags[i].key == k
  {
    if tags != [] {
      var n := |tags| - 1;
      var init := tags[..n];
      TagDictKeys(init, k);
      if tags[n].key != k {
        if k in TagDict(init) {
          var i :| 0 <= i < n && init[i].key == k;
          assert tags[i].key == k;
        }
        if exists i :: 0 <= i < |tags| && tags[i].key == k {
          var i :| 0 <= i < |tags| && tags[i].key == k;
          assert init[i].key == k;
        }
      }
    }
  }

  lemma {:induction false} TagDictLast(tags: seq<Tag>, k: string)
    requires k in TagDict(tags)
    ensures exists i :: IsLastTag(tags, k, i) && TagDict(tags)[k] == tags[i].value
  {
    var n := |tags| - 1;
    var init := tags[..n];
    if tags[n].key == k {
      assert IsLastTag(tags, k, n);
    } else {
      TagDictLast(init, k);
      var i :| IsLastTag(init, k, i) && TagDict(init)[k] == init[i].value;
      assert tags[i] == init[i];
      assert IsLastTag(tags, k, i);
    }
  }

  /** The keys are exactly the tags' keys, and a repeated key takes the value of its last tag. */
  lemma TagDictSpec(tags: seq<Tag>, k: string)
    ensures k in TagDict(tags) <==> exists i :: 0 <= i < |tags| && tags[i].key == k
    ensures k in TagDict(tags) ==> exists i :: IsLastTag(tags, k, i) && TagDict(tags)[k] == tags[i].value
  {
    TagDictKeys(tags, k);
    if k in TagDict(tags) {
      TagDictLast(tags, k);
    }
  }

  /** dict_format: an empty dict for None or [], otherwise the tags flattened key by key. */
  method DictFormat(tagList: Option<seq<Tag>>) returns (tmpDict: map<string, string>)
    ensures tmpDict == TagDict(TagsOrEmpty(tagList))
  {
    tmpDict := map[];
    if tagList.None? || tagList.value == [] {
      return;
    }
    var tags := tagList.value;
    for i := 0 to |tags|
      invariant tmpDict == TagDict(tags[..i])
    {
      assert tags[..i + 1][..i] == tags[..i];
      tmpDict := tmpDict[tags[i].key := tags[i].value];
    }
    assert tags[..|tags|] == tags;
  }

  // ---------------------------------------------------------------------------
  // One record per listed instance

  function TagCells(d: map<string, string>): Row
  {
    map k | k in d :: Some(d[k])
  }

  /** info_dict after `update(dict_format(instance.tags))`: tags overwrite same-named fixed fields. */
  function Record(inst: Instance): Row
  {
    var tags := TagsOrEmpty(inst.tags);
    map["Instance_id" := Some(inst.id), "Public_ip" := inst.publicIp, "Private_ip" := inst.privateIp,
        "hostname" := NameTag(tags), "Instance_state" := Some(inst.state)]
      + TagCells(TagDict(tags))
  }

  lemma RecordSpec(inst: Instance)
    ensures Indexable(Record(inst))
    ensures forall c :: c in FixedColumns ==> c in Record(inst)
    ensures forall k :: k in Record(inst) <==> k in FixedColumns || k in TagDict(TagsOrEmpty(inst.tags))
    ensures forall k :: k in TagDict(TagsOrEmpty(inst.tags)) ==> Record(inst)[k] == Some(TagDict(TagsOrEmpty(inst.tags))[k])
    ensures "Instance_id" !in TagDict(TagsOrEmpty(inst.tags)) ==> Record(inst)["Instance_id"] == Some(inst.id)
  {
  }

  /** The records of the whole fleet, in listing order. */
  function Records(instances: seq<Instance>): (rows: seq<Row>)
    ensures |rows| == |instances|
  {
    if instances == [] then [] else Records(instances[..|instances| - 1]) + [Record(instances[|instances| - 1])]
  }

  lemma RecordsStep(instances: seq<Instance>, i: nat)
    requires i < |instances|
    ensures Records(instances[..i + 1]) == Records(instances[..i]) + [Record(instances[i])]
  {
    assert instances[..i + 1][..i] == instances[..i];
  }

  lemma RecordsIndexable(instances: seq<Instance>)
    ensures forall r :: r in Records(instances) ==> Indexable(r)
  {
    if instances != [] {
      RecordsIndexable(instances[..|instances| - 1]);
      RecordSpec(instances[|instances| - 1]);
    }
  }

  /** The loop over all instances: a Table holding one record per instance, in listing order. */
  method BuildFleet(instances: seq<Instance>) returns (allInstanceTable: Table)
    ensures fresh(allInstanceTable) && allInstanceTable.Valid()
    ensures allInstanceTable.rows == Records(instances)
  {
    allInstanceTable := new Table();
    for i := 0 to |instances|
      invariant allInstanceTable.Valid()
      invariant allInstanceTable.rows == Records(instances[..i])
    {
      var instance := instances[i];
      var instanceName := FindHostName(instance.tags);
      var infoDict: Row := map["Instance_id" := Some(instance.id), "Public_ip" := instance.publicIp,
                               "Private_ip" := instance.privateIp, "hostname" := instanceName,
                               "Instance_state" := Some(instance.state)];
      var tags := DictFormat(instance.tags);
      infoDict := infoDict + TagCells(tags);
      assert infoDict == Record(instance);
      RecordSpec(instance);
      RecordsStep(instances, i);
      var raised := allInstanceTable.AddRow(infoDict);
    }
    assert instances[..|instances|] == instances;
  }

  // ---------------------------------------------------------------------------
  // Resolving the queries

  datatype QueryKind = InstanceIdQuery | AddressQuery

  /** The record one query line finds: by id only, or by private address first and public address second. */
  function Resolve1(fleet: seq<Row>, kind: QueryKind, q: string): Option<Row>
  {
    match kind
    case InstanceIdQuery =>
      var byId := IndexOf(fleet, ById);
      if Some(q) in byId then Some(byId[Some(q)]) else None
    case AddressQuery =>
      var byPrivate := IndexOf(fleet, ByPrivate);
      var byPublic := IndexOf(fleet, ByPublic);
      if Some(q) in byPrivate then Some(byPrivate[Some(q)])
      else if Some(q) in byPublic then Some(byPublic[Some(q)])
      else None
  }

  /**
   * An id finds the last record listed with that id. An address finds the last
   * record with that private address; only when there is none, the last with
   * that public address; otherwise nothing.
   */
  lemma Resolve1Spec(fleet: seq<Row>, kind: QueryKind, q: string)
    ensures kind == InstanceIdQuery ==>
      && (Resolve1(fleet, kind, q).None? <==> !HasMatch(fleet, ById, Some(q)))
      && (Resolve1(fleet, kind, q).Some? ==>
            exists i :: IsLastMatch(fleet, ById, Some(q), i) && Resolve1(fleet, kind, q).value == fleet[i])
    ensures kind == AddressQuery && HasMatch(fleet, ByPrivate, Some(q)) ==>
      && Resolve1(fleet, kind, q).Some?
      && exists i :: IsLastMatch(fleet, ByPrivate, Some(q), i) && Resolve1(fleet, kind, q).value == fleet[i]
    ensures kind == AddressQuery && !HasMatch(fleet, ByPrivate, Some(q)) && HasMatch(fleet, ByPublic, Some(q)) ==>
      && Resolve1(fleet, kind, q).Some?
      && exists i :: IsLastMatch(fleet, ByPublic, Some(q), i) && Resolve1(fleet, kind, q).value == fleet[i]
    ensures kind == AddressQuery && !HasMatch(fleet, ByPrivate, Some(q)) && !HasMatch(fleet, ByPublic, Some(q)) ==>
      Resolve1(fleet, kind, q).None?
  {
    IndexOfSpec(fleet, ById, Some(q));
    IndexOfSpec(fleet, ByPrivate, Some(q));
    IndexOfSpec(fleet, ByPublic, Some(q));
  }

  /** The records a list of queries finds, in query order; a query that finds nothing adds nothing. */
  function Hits(fleet: seq<Row>, kind: QueryKind, queries: seq<string>): seq<Row>
  {
    if queries == [] then []
    else
      var hit := Resolve1(fleet, kind, queries[|queries| - 1]);
      Hits(fleet, kind, queries[..|queries| - 1]) + (if hit.Some? then [hit.value] else [])
  }

  lemma HitsStep(fleet: seq<Row>, kind: QueryKind, queries: seq<string>, i: nat)
    requires i < |queries|
    ensures Resolve1(fleet, kind, queries[i]).None? ==> Hits(fleet, kind, queries[..i + 1]) == Hits(fleet, kind, queries[..i])
    ensures Resolve1(fleet, kind, queries[i]).Some? ==>
      Hits(fleet, kind, queries[..i + 1]) == Hits(fleet, kind, queries[..i]) + [Resolve1(fleet, kind, queries[i]).value]
  {
    assert queries[..i + 1][..i] == queries[..i];
    assert Hits(fleet, kind, queries[..i]) + [] == Hits(fleet, kind, queries[..i]);
  }

  /** A query finds a record of the fleet, if any. */
  lemma Resolve1InFleet(fleet: seq<Row>, kind: QueryKind, q: string)
    ensures Resolve1(fleet, kind, q).Some? ==> Resolve1(fleet, kind, q).value in fleet
  {
    IndexOfSpec(fleet, ById, Some(q));
    IndexOfSpec(fleet, ByPrivate, Some(q));
    IndexOfSpec(fleet, ByPublic, Some(q));
  }

  lemma {:induction false} HitsLength(fleet: seq<Row>, kind: QueryKind, queries: seq<string>)
    ensures |Hits(fleet, kind, queries)| <= |queries|
    ensures |Hits(fleet, kind, queries)| == |queries| <==>
      forall k :: 0 <= k < |queries| ==> Resolve1(fleet, kind, queries[k]).Some?
  {
    if queries != [] {
      var n := |queries| - 1;
      var init := queries[..n];
      HitsLength(fleet, kind, init);
      if Resolve1(fleet, kind, queries[n]).None? {
        assert !(forall k :: 0 <= k < |queries| ==> Resolve1(fleet, kind, queries[k]).Some?);
      } else {
        assert forall k :: 0 <= k < n ==> init[k] == queries[k];
      }
    }
  }

  lemma {:induction false} HitsFound(fleet: seq<Row>, kind: QueryKind, queries: seq<string>)
    ensures forall r :: r in Hits(fleet, kind, queries) ==>
      r in fleet && exists k :: 0 <= k < |queries| && Resolve1(fleet, kind, queries[k]) == Some(r)
  {
    if queries != [] {
      var n := |queries| - 1;
      var init := queries[..n];
      HitsFound(fleet, kind, init);
      Resolve1InFleet(fleet, kind, queries[n]);
      forall r | r in Hits(fleet, kind, queries)
        ensures r in fleet && exists k :: 0 <= k < |queries| && Resolve1(fleet, kind, queries[k]) == Some(r)
      {
        if r in Hits(fleet, kind, init) {
          var k :| 0 <= k < n && Resolve1(fleet, kind, init[k]) == Some(r);
          assert init[k] == queries[k];
        } else {
          assert Resolve1(fleet, kind, queries[n]) == Some(r);
        }
      }
    }
  }

  /**
   * Each found record is a fleet record found by one of the queries; there
   * are never more records than queries, and exactly as many (repeats
   * included) when every query finds something.
   */
  lemma HitsSpec(fleet: seq<Row>, kind: QueryKind, queries: seq<string>)
    ensures |Hits(fleet, kind, queries)| <= |queries|
    ensures |Hits(fleet, kind, queries)| == |queries| <==>
      forall k :: 0 <= k < |queries| ==> Resolve1(fleet, kind, queries[k]).Some?
    ensures forall r :: r in Hits(fleet, kind, queries) ==>
      r in fleet && exists k :: 0 <= k < |queries| && Resolve1(fleet, kind, queries[k]) == Some(r)
  {
    HitsLength(fleet, kind, queries);
    HitsFound(fleet, kind, queries);
  }

  /**
   * The two resolution loops: every id query first, then every address
   * query, each found record added to a fresh search table.
   */
  method Resolve(fleet: Table, searchInstanceList: seq<string>, searchIpList: seq<string>) returns (searchTable: Table)
    requires fleet.Valid()
    requires forall r :: r in fleet.rows ==> Indexable(r)
    ensures fresh(searchTable) && searchTable.Valid()
    ensures searchTable.rows ==
      Hits(fleet.rows, InstanceIdQuery, searchInstanceList) + Hits(fleet.rows, AddressQuery, searchIpList)
  {
    searchTable := new Table();
    for i := 0 to |searchInstanceList|
      invariant searchTable.Valid()
      invariant searchTable.rows == Hits(fleet.rows, InstanceIdQuery, searchInstanceList[..i])
    {
      var instanceId := searchInstanceList[i];
      HitsStep(fleet.rows, InstanceIdQuery, searchInstanceList, i);
      if fleet.ContainsInstanceId(Some(instanceId)) {
        var raised := searchTable.AddRow(fleet.GetRowInstanceId(Some(instanceId)).value);
      }
    }
    assert searchInstanceList[..|searchInstanceList|] == searchInstanceList;
    ghost var idRows := searchTable.rows;
    for i := 0 to |searchIpList|
      invariant searchTable.Valid()
      invariant searchTable.rows == idRows + Hits(fleet.rows, AddressQuery, searchIpList[..i])
    {
      var ipAddress := searchIpList[i];
      ghost var found := Hits(fleet.rows, AddressQuery, searchIpList[..i]);
      HitsStep(fleet.rows, AddressQuery, searchIpList, i);
      if fleet.ContainsPrivateIpv4(Some(ipAddress)) {
        var row := fleet.GetRowPrivateIpv4(Some(ipAddress)).value;
        var raised := searchTable.AddRow(row);
        AppendAssoc(idRows, found, [row]);
      } else if fleet.ContainsPublicIpv4(Some(ipAddress)) {
        var row := fleet.GetRowPublicIpv4(Some(ipAddress)).value;
        var raised := searchTable.AddRow(row);
        AppendAssoc(idRows, found, [row]);
      }
    }
    assert searchIpList[..|searchIpList|] == searchIpList;
  }

  // ---------------------------------------------------------------------------
  // Export columns

  /** Every key of every record. */
  function AllKeys(rows: seq<Row>): set<string>
  {
    if rows == [] then {} else AllKeys(rows[..|rows| - 1]) + rows[|rows| - 1].Keys
  }

  lemma {:induction false} AllKeysSpec(rows: seq<Row>, k: string)
    ensures k in AllKeys(rows) <==> exists n :: 0 <= n < |rows| && k in rows[n]
  {
    if rows != [] {
      var init := rows[..|rows| - 1];
      AllKeysSpec(init, k);
      assert forall n :: 0 <= n < |init| ==> init[n] == rows[n];
    }
  }

  predicate IsNotFixed(column: string)
  {
    column !in FixedColumns
  }

  /**
   * The export header of the matched records: the five fixed columns in
   * order, then every other key of the records, sorted, each once.
   */
  ghost predicate IsExportHeader(rows: seq<Row>, columns: seq<string>)
  {
    && |columns| >= 5
    && columns[..5] == FixedColumns
    && Sorted(columns[5..])
    && Distinct(columns[5..])
    && forall k :: k in columns[5..] <==> k in AllKeys(rows) && k !in FixedColumns
  }

  /** The column loop, `columns.sort()`, the filter of the fixed names and the final concatenation. */
  method ExportColumns(rows: seq<Row>) returns (columns: seq<string>)
    ensures IsExportHeader(rows, columns)
  {
    columns := [];
    for i := 0 to |rows|
      invariant Distinct(columns)
      invariant forall k :: k in columns <==> k in AllKeys(rows[..i])
    {
      var row := rows[i];
      var keys := row.Keys;
      while keys != {}
        invariant keys <= row.Keys
        invariant Distinct(columns)
        invariant forall k :: k in columns <==> k in AllKeys(rows[..i]) || k in row.Keys - keys
        decreases keys
      {
        var key :| key in keys;
        if key !in columns {
          columns := columns + [key];
        }
        keys := keys - {key};
      }
      assert rows[..i + 1][..i] == rows[..i];
    }
    assert rows[..|rows|] == rows;
    ghost var found := columns;
    columns := SortStrings(columns);
    SortStringsSpec(found);
    SortStringsDistinct(found);
    assert forall k :: k in columns <==> k in multiset(columns);
    var tail := Filter(IsNotFixed, columns);
    FilterKeepsOrder(IsNotFixed, columns, StrLe);
    FilterKeepsOrder(IsNotFixed, columns, (a: string, b: string) => a != b);
    columns := FixedColumns + tail;
    assert columns[..5] == FixedColumns && columns[5..] == tail;
  }

  /** The header does not depend on the order in which the keys were met. */
  lemma ExportHeaderUnique(rows: seq<Row>, columns: seq<string>, other: seq<string>)
    requires IsExportHeader(rows, columns) && IsExportHeader(rows, other)
    ensures columns == other
  {
    SortedDistinctUnique(columns[5..], other[5..]);
    assert columns == columns[..5] + columns[5..];
    assert other == other[..5] + other[5..];
  }

  /** Every key of every matched record is a column of the header. */
  lemma ExportHeaderCovers(rows: seq<Row>, columns: seq<string>)
    requires IsExportHeader(rows, columns)
    ensures forall r, k :: r in rows && k in r ==> k in columns
  {
    forall r, k | r in rows && k in r
      ensures k in columns
    {
      var n :| 0 <= n < |rows| && rows[n] == r;
      AllKeysSpec(rows, k);
      if k in FixedColumns {
        assert k in columns[..5];
      } else {
        assert k in columns[5..];
      }
    }
  }

  // ---------------------------------------------------------------------------
  // Export rows

  /** Python's key `x.get("Instance_state") != "running"` is False exactly for these. */
  predicate IsRunning(r: Row)
  {
    "Instance_state" in r && r["Instance_state"] == Some("running")
  }

  predicate NotRunning(r: Row)
  {
    !IsRunning(r)
  }

  /** Insert `r` before the first record whose key is not smaller (False < True). */
  function InsertByState(r: Row, ordered: seq<Row>): (result: seq<Row>)
    ensures |result| == |ordered| + 1
  {
    if ordered == [] || IsRunning(r) || NotRunning(ordered[0]) then [r] + ordered
    else [ordered[0]] + InsertByState(r, ordered[1..])
  }

  /** `sorted(rows, key=...)`: a stable sort on the boolean key. */
  function SortByState(rows: seq<Row>): (ordered: seq<Row>)
    ensures |ordered| == |rows|
  {
    if rows == [] then [] else InsertByState(rows[0], SortByState(rows[1..]))
  }

  lemma {:induction false} InsertStopped(r: Row, running: seq<Row>, rest: seq<Row>)
    requires NotRunning(r)
    requires forall x :: x in running ==> IsRunning(x)
    requires forall x :: x in rest ==> NotRunning(x)
    ensures InsertByState(r, running + rest) == running + [r] + rest
  {
    if running == [] {
      NilAppend(rest);
      NilAppend([r]);
    } else {
      var head := running[0];
      var tail := running[1..];
      assert running == [head] + tail;
      assert (running + rest)[0] == head;
      assert (running + rest)[1..] == tail + rest;
      InsertStopped(r, tail, rest);
      ConsAssoc(head, tail, [r], rest);
    }
  }

  /**
   * The output order is a stable partition: every running record, in table
   * order, then every other record, in table order.
   */
  lemma {:induction false} SortByStateSpec(rows: seq<Row>)
    ensures SortByState(rows) == Filter(IsRunning, rows) + Filter(NotRunning, rows)
  {
    if rows != [] {
      SortByStateSpec(rows[1..]);
      if IsRunning(rows[0]) {
        SortRunningHead(rows);
      } else {
        SortStoppedHead(rows);
      }
    }
  }

  lemma SortRunningHead(rows: seq<Row>)
    requires rows != [] && IsRunning(rows[0])
    requires SortByState(rows[1..]) == Filter(IsRunning, rows[1..]) + Filter(NotRunning, rows[1..])
    ensures SortByState(rows) == Filter(IsRunning, rows) + Filter(NotRunning, rows)
  {
    var r := rows[0];
    var running := Filter(IsRunning, rows[1..]);
    var rest := Filter(NotRunning, rows[1..]);
    FilterKeep(IsRunning, rows);
    FilterSkip(NotRunning, rows);
    assert SortByState(rows) == [r] + (running + rest);
    AppendAssoc([r], running, rest);
  }

  lemma SortStoppedHead(rows: seq<Row>)
    requires rows != [] && NotRunning(rows[0])
    requires SortByState(rows[1..]) == Filter(IsRunning, rows[1..]) + Filter(NotRunning, rows[1..])
    ensures SortByState(rows) == Filter(IsRunning, rows) + Filter(NotRunning, rows)
  {
    var r := rows[0];
    var running := Filter(IsRunning, rows[1..]);
    var rest := Filter(NotRunning, rows[1..]);
    FilterSkip(IsRunning, rows);
    FilterKeep(NotRunning, rows);
    assert SortByState(rows) == InsertByState(r, running + rest);
    InsertStopped(r, running, rest);
    AppendAssoc(running, [r], rest);
  }

  /** Sorting loses and invents no record. */
  lemma SortByStatePermutes(rows: seq<Row>)
    ensures multiset(SortByState(rows)) == multiset(rows)
  {
    SortByStateSpec(rows);
    FilterPartition(IsRunning, NotRunning, rows);
  }

  /** `[row.get(column, "null") for column in columns]` */
  function Project(row: Row, columns: seq<string>): (cells: seq<Cell>)
    ensures |cells| == |columns|
  {
    seq(|columns|, i requires 0 <= i < |columns| => if columns[i] in row then row[columns[i]] else Some("null"))
  }

  /** The data lines of the export file, in output order. */
  function OutputRows(rows: seq<Row>, columns: seq<string>): (lines: seq<seq<Cell>>)
    ensures |lines| == |rows|
  {
    var ordered := SortByState(rows);
    seq(|ordered|, n requires 0 <= n < |ordered| => Project(ordered[n], columns))
  }

  /**
   * A projected row keeps every field of the record under its column, None
   * included; "null" stands in only for a column the record lacks (or a
   * field whose value is itself "null").
   */
  lemma ProjectSpec(row: Row, columns: seq<string>)
    ensures forall i :: 0 <= i < |columns| && columns[i] in row ==> Project(row, columns)[i] == row[columns[i]]
    ensures forall i :: 0 <= i < |columns| && columns[i] !in row ==> Project(row, columns)[i] == Some("null")
    ensures (forall k :: k in row ==> k in columns) ==>
      forall k :: k in row ==> exists i :: 0 <= i < |columns| && columns[i] == k && Project(row, columns)[i] == row[k]
  {
    forall k | k in row && k in columns
      ensures exists i :: 0 <= i < |columns| && columns[i] == k && Project(row, columns)[i] == row[k]
    {
      ProjectField(row, columns, k);
    }
  }

  lemma ProjectField(row: Row, columns: seq<string>, k: string)
    requires k in row && k in columns
    ensures exists i :: 0 <= i < |columns| && columns[i] == k && Project(row, columns)[i] == row[k]
  {
    var i :| 0 <= i < |columns| && columns[i] == k;
    assert Project(row, columns)[i] == row[k];
  }

  /** When the columns cover every key of every record, each output line holds every field of its record. */
  lemma OutputRowsCovered(rows: seq<Row>, columns: seq<string>)
    requires forall r, k :: r in rows && k in r ==> k in columns
    ensures forall n :: 0 <= n < |rows| ==> OutputRows(rows, columns)[n] == Project(SortByState(rows)[n], columns)
    ensures forall n, k :: 0 <= n < |rows| && k in SortByState(rows)[n] ==>
      exists i :: 0 <= i < |columns| && columns[i] == k && OutputRows(rows, columns)[n][i] == SortByState(rows)[n][k]
  {
    SortByStatePermutes(rows);
    var ordered := SortByState(rows);
    forall n, k | 0 <= n < |rows| && k in ordered[n]
      ensures exists i :: 0 <= i < |columns| && columns[i] == k && OutputRows(rows, columns)[n][i] == ordered[n][k]
    {
      assert ordered[n] in multiset(rows);
      ProjectField(ordered[n], columns, k);
    }
  }

  /**
   * Under the export header, line n of the export is the n-th record of the
   * running records followed by the others, with every one of its fields
   * under its own column.
   */
  lemma OutputRowsSpec(rows: seq<Row>, columns: seq<string>)
    requires IsExportHeader(rows, columns)
    ensures |Filter(IsRunning, rows)| + |Filter(NotRunning, rows)| == |OutputRows(rows, columns)|
    ensures var ordered := Filter(IsRunning, rows) + Filter(NotRunning, rows);
      forall n :: 0 <= n < |ordered| ==> OutputRows(rows, columns)[n] == Project(ordered[n], columns)
    ensures var ordered := Filter(IsRunning, rows) + Filter(NotRunning, rows);
      forall n, k :: 0 <= n < |ordered| && k in ordered[n] ==>
        exists i :: 0 <= i < |columns| && columns[i] == k && OutputRows(rows, columns)[n][i] == ordered[n][k]
  {
    ExportHeaderCovers(rows, columns);
    OutputRowsCovered(rows, columns);
    SortByStateSpec(rows);
  }

  // ---------------------------------------------------------------------------
  // The whole search

  /**
   * The search run without its I/O: classify the query lines, index the
   * fleet, resolve the queries, and lay out the export header and lines.
   */
  method Search(instances: seq<Instance>, entries: seq<string>) returns (columns: seq<string>, lines: seq<seq<Cell>>)
    ensures var fleet := Records(instances);
            var matched := Hits(fleet, InstanceIdQuery, Filter(IsInstanceQuery, Stripped(entries))) +
                           Hits(fleet, AddressQuery, Filter(IsIPv4, Stripped(entries)));
            IsExportHeader(matched, columns) && lines == OutputRows(matched, columns)
  {
    var searchIpList, searchInstanceList := ParseInputFile(entries);
    var allInstanceTable := BuildFleet(instances);
    RecordsIndexable(instances);
    var searchTable := Resolve(allInstanceTable, searchInstanceList, searchIpList);
    columns := ExportColumns(searchTable.rows);
    lines := OutputRows(searchTable.rows, columns);
  }
}
