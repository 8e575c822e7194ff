/**
 * The multi-key instance table of search-instances.py: an insertion-ordered
 * list of instance records plus three dictionaries that find a record by
 * instance id, private IPv4 address and public IPv4 address.
 */
module InstanceTable {
  import opened Common

  /** One cell of an instance record: a string, or Python's None. */
  type Cell = Option<string>

  /** One instance record: a Python dict from column name to cell. */
  type Row = map<string, Cell>

  /** The three dictionaries a Table keeps. */
  datatype Index = ById | ByPrivate | ByPublic

  /** The record field whose value keys the dictionary. */
  function Field(ix: Index): string
  {
    match ix
    case ById => "Instance_id"
    case ByPrivate => "Private_ip"
    case ByPublic => "Public_ip"
  }

  /** Python truthiness of a cell: not None and not the empty string. */
  predicate Truthy(c: Cell)
  {
    c.Some? && c.value != ""
  }

  /**
   * Whether add_row(r) writes r into dictionary `ix`. The id and private
   * dictionaries are written by plain subscripts, so a missing key raises
   * KeyError and stops add_row before the later dictionaries; the public one
   * is written only for a present, non-empty Public_ip.
   */
  predicate Reaches(r: Row, ix: Index)
  {
    "Instance_id" in r &&
    match ix
    case ById => true
    case ByPrivate => "Private_ip" in r
    case ByPublic => "Private_ip" in r && "Public_ip" in r && Truthy(r["Public_ip"])
  }

  /** A record with both mandatory fields: add_row takes it without raising. */
  predicate Indexable(r: Row)
  {
    "Instance_id" in r && "Private_ip" in r
  }

  /** add_row(r) stored r under `key` in dictionary `ix`. */
  predicate Matches(r: Row, ix: Index, key: Cell)
  {
    Reaches(r, ix) && r[Field(ix)] == key
  }

  predicate HasMatch(rows: seq<Row>, ix: Index, key: Cell)
  {
    exists i :: 0 <= i < |rows| && Matches(rows[i], ix, key)
  }

  /** rows[i] is the last record stored under `key` in dictionary `ix`. */
  predicate IsLastMatch(rows: seq<Row>, ix: Index, key: Cell, i: int)
  {
    0 <= i < |rows| && Matches(rows[i], ix, key) &&
    forall j :: i < j < |rows| ==> !Matches(rows[j], ix, key)
  }

  /** The dictionary `ix` after add_row has been called on each of `rows` in turn. */
  function IndexOf(rows: seq<Row>, ix: Index): map<Cell, Row>
  {
    if rows == [] then map[]
    else
      var m := IndexOf(rows[..|rows| - 1], ix);
      var r := rows[|rows| - 1];
      if Reaches(r, ix) then m[r[Field(ix)] := r] else m
  }

  lemma {:induction false} IndexOfKeys(rows: seq<Row>, ix: Index, key: Cell)
    ensures key in IndexOf(rows, ix) <==> HasMatch(rows, ix, key)
  {
    if rows != [] {
      var n := |rows| - 1;
      var init := rows[..n];
      IndexOfKeys(init, ix, key);
      if !Matches(rows[n], ix, key) {
        if HasMatch(init, ix, key) {
          var i :| 0 <= i < n && Matches(init[i], ix, key);
          assert Matches(rows[i], ix, key);
        }
        if HasMatch(rows, ix, key) {
          var i :| 0 <= i < |rows| && Matches(rows[i], ix, key);
          assert Matches(init[i], ix, key);
        }
      }
    }
  }

  /** A record that does not match leaves the last match where it was. */
  lemma LastMatchExtends(rows: seq<Row>, ix: Index, key: Cell, i: int)
    requires rows != [] && !Matches(rows[|rows| - 1], ix, key)
    requires IsLastMatch(rows[..|rows| - 1], ix, key, i)
    ensures IsLastMatch(rows, ix, key, i) && rows[i] == rows[..|rows| - 1][i]
  {
    var init := rows[..|rows| - 1];
    forall j | i < j < |rows|
      ensures !Matches(rows[j], ix, key)
    {
      if j < |init| {
        assert rows[j] == init[j];
      }
    }
  }

  lemma {:induction false} IndexOfLast(rows: seq<Row>, ix: Index, key: Cell)
    requires key in IndexOf(rows, ix)
    ensures exists i :: IsLastMatch(rows, ix, key, i) && IndexOf(rows, ix)[key] == rows[i]
  {
    var n := |rows| - 1;
    var init := rows[..n];
    if Matches(rows[n], ix, key) {
      assert IsLastMatch(rows, ix, key, n);
    } else {
      IndexOfLast(init, ix, key);
      var i :| IsLastMatch(init, ix, key, i) && IndexOf(init, ix)[key] == init[i];
      LastMatchExtends(rows, ix, key, i);
    }
  }

  /**
   * A dictionary knows exactly the keys some added record was stored under,
   * and a key maps to the last such record: later writes win.
   */
  lemma IndexOfSpec(rows: seq<Row>, ix: Index, key: Cell)
    ensures key in IndexOf(rows, ix) <==> HasMatch(rows, ix, key)
    ensures key in IndexOf(rows, ix) ==>
      exists i :: IsLastMatch(rows, ix, key, i) && IndexOf(rows, ix)[key] == rows[i]
  {
    IndexOfKeys(rows, ix, key);
    if key in IndexOf(rows, ix) {
      IndexOfLast(rows, ix, key);
    }
  }

  /** Every record a dictionary points to is one of the added records. */
  lemma IndexOfValues(rows: seq<Row>, ix: Index)
    ensures forall key :: key in IndexOf(rows, ix) ==> IndexOf(rows, ix)[key] in rows
  {
    forall key | key in IndexOf(rows, ix)
      ensures IndexOf(rows, ix)[key] in rows
    {
      IndexOfSpec(rows, ix, key);
    }
  }

  /** The `Table` class: `_rows` and the three dictionaries. */
  class Table {
    var rows: seq<Row>
    var instanceIdMap: map<Cell, Row>
    var privateIpv4Map: map<Cell, Row>
    var publicIpv4Map: map<Cell, Row>

    /** Each dictionary is what the add_row calls that built `rows` left in it. */
    ghost predicate Valid()
      reads this
    {
      && instanceIdMap == IndexOf(rows, ById)
      && privateIpv4Map == IndexOf(rows, ByPrivate)
      && publicIpv4Map == IndexOf(rows, ByPublic)
    }

    constructor ()
      ensures Valid()
      ensures rows == [] && instanceIdMap == map[] && privateIpv4Map == map[] && publicIpv4Map == map[]
    {
      rows := [];
      instanceIdMap := map[];
      privateIpv4Map := map[];
      publicIpv4Map := map[];
    }

    /**
     * add_row: append the record, then store it by id, by private address and,
     * when it has a non-empty public address, by public address. The result
     * names the key whose absence raised KeyError, after the record was
     * already appended (and, for Private_ip, already stored by id).
     */
    method AddRow(row: Row) returns (raised: Option<string>)
      requires Valid()
      modifies this
      ensures Valid()
      ensures rows == old(rows) + [row]
      ensures raised == (if "Instance_id" !in row then Some("Instance_id")
                         else if "Private_ip" !in row then Some("Private_ip")
                         else None)
      ensures raised.None? <==> Indexable(row)
      ensures instanceIdMap ==
        if Reaches(row, ById) then old(instanceIdMap)[row["Instance_id"] := row] else old(instanceIdMap)
      ensures privateIpv4Map ==
        if Reaches(row, ByPrivate) then old(privateIpv4Map)[row["Private_ip"] := row] else old(privateIpv4Map)
      ensures publicIpv4Map ==
        if Reaches(row, ByPublic) then old(publicIpv4Map)[row["Public_ip"] := row] else old(publicIpv4Map)
    {
      ghost var before := rows;
      rows := rows + [row];
      assert rows[..|rows| - 1] == before;
      if "Instance_id" !in row {
        return Some("Instance_id");
      }
      instanceIdMap := instanceIdMap[row["Instance_id"] := row];
      if "Private_ip" !in row {
        return Some("Private_ip");
      }
      privateIpv4Map := privateIpv4Map[row["Private_ip"] := row];
      if "Public_ip" in row && Truthy(row["Public_ip"]) {
        publicIpv4Map := publicIpv4Map[row["Public_ip"] := row];
      }
      return None;
    }

    /** get_row_instance_id: the last record added with this id, or None. */
    function GetRowInstanceId(instanceId: Cell): (r: Option<Row>)
      reads this
      requires Valid()
      ensures r.None? <==> !HasMatch(rows, ById, instanceId)
      ensures r.Some? ==> exists i :: IsLastMatch(rows, ById, instanceId, i) && r.value == rows[i]
    {
      IndexOfSpec(rows, ById, instanceId);
      if instanceId in instanceIdMap then Some(instanceIdMap[instanceId]) else None
    }

    /** get_row_private_ipv4: the last record added with this private address, or None. */
    function GetRowPrivateIpv4(ipAddress: Cell): (r: Option<Row>)
      reads this
      requires Valid()
      ensures r.None? <==> !HasMatch(rows, ByPrivate, ipAddress)
      ensures r.Some? ==> exists i :: IsLastMatch(rows, ByPrivate, ipAddress, i) && r.value == rows[i]
    {
      IndexOfSpec(rows, ByPrivate, ipAddress);
      if ipAddress in privateIpv4Map then Some(privateIpv4Map[ipAddress]) else None
    }

    /** get_row_public_ipv4: the last record added with this non-empty public address, or None. */
    function GetRowPublicIpv4(ipAddress: Cell): (r: Option<Row>)
      reads this
      requires Valid()
      ensures r.None? <==> !HasMatch(rows, ByPublic, ipAddress)
      ensures r.Some? ==> exists i :: IsLastMatch(rows, ByPublic, ipAddress, i) && r.value == rows[i]
    {
      IndexOfSpec(rows, ByPublic, ipAddress);
      if ipAddress in publicIpv4Map then Some(publicIpv4Map[ipAddress]) else None
    }

    /** contains_instance_id */
    function ContainsInstanceId(instanceId: Cell): (b: bool)
      reads this
      requires Valid()
      ensures b <==> HasMatch(rows, ById, instanceId)
    {
      IndexOfSpec(rows, ById, instanceId);
      instanceId in instanceIdMap
    }

    /** contains_private_ipv4 */
    function ContainsPrivateIpv4(ipAddress: Cell): (b: bool)
      reads this
      requires Valid()
      ensures b <==> HasMatch(rows, ByPrivate, ipAddress)
    {
      IndexOfSpec(rows, ByPrivate, ipAddress);
      ipAddress in privateIpv4Map
    }

    /** contains_public_ipv4 */
    function ContainsPublicIpv4(ipAddress: Cell): (b: bool)
      reads this
      requires Valid()
      ensures b <==> HasMatch(rows, ByPublic, ipAddress)
    {
      IndexOfSpec(rows, ByPublic, ipAddress);
      ipAddress in publicIpv4Map
    }
  }
}
