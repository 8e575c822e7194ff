/**
 * The tag-apply tool, ec2-tags-apply.py: for every data row of the CSV
 * export, set the row's tags on the instance named in its first cell, then
 * delete every tag the instance still carries that the row does not name.
 */
module TagsApply {
  import opened Common

  /** The five header names whose columns hold tag values, in column order. */
  const TagNames: seq<string> := ["Name", "Rname", "se", "task", "newtag"]

  /** The exceptions that stop the run. */
  datatype Error =
    | StopIteration               // the file has no header line
    | IndexError                  // a data line without cells
    | ValueError(missing: string) // `header.index(name)` on a header without that name
    | InvalidInstanceId(id: string) // the provider knows no such instance

  datatype Outcome = Done | Raised(error: Error)

  // ---------------------------------------------------------------------------
  // Tag keys from the header

  /** list.index: the first position of `x`, or ValueError. */
  function IndexIn(xs: seq<string>, x: string): (r: Result<nat, Error>)
    ensures r.Ok? <==> x in xs
    ensures r.Ok? ==> r.value < |xs| && xs[r.value] == x && forall j :: 0 <= j < r.value ==> xs[j] != x
    ensures r.Err? ==> r.error == ValueError(x)
  {
    if xs == [] then Err(ValueError(x))
    else if xs[0] == x then Ok(0)
    else
      var i :- IndexIn(xs[1..], x);
      Ok(i + 1)
  }

  /** tag_keys: the header cells at the positions of the five names. */
  function TagKeys(header: seq<string>): Result<seq<string>, Error>
  {
    var nameIndex :- IndexIn(header, "Name");
    var rnameIndex :- IndexIn(header, "Rname");
    var seIndex :- IndexIn(header, "se");
    var taskIndex :- IndexIn(header, "task");
    var newtagIndex :- IndexIn(header, "newtag");
    Ok([header[nameIndex], header[rnameIndex], header[seIndex], header[taskIndex], header[newtagIndex]])
  }

  /**
   * Whatever the header, the tag keys are the five names themselves; a header
   * lacking one of them raises ValueError for the first missing name.
   */
  lemma TagKeysSpec(header: seq<string>)
    ensures TagKeys(header).Ok? <==> forall k :: 0 <= k < |TagNames| ==> TagNames[k] in header
    ensures TagKeys(header).Ok? ==> TagKeys(header).value == TagNames
    ensures TagKeys(header).Err? ==>
      exists k :: 0 <= k < |TagNames| && TagNames[k] !in header && TagKeys(header).error == ValueError(TagNames[k]) &&
                  forall j :: 0 <= j < k ==> TagNames[j] in header
  {
    if "Name" !in header {
      assert TagNames[0] !in header;
    } else if "Rname" !in header {
      assert TagNames[1] !in header;
    } else if "se" !in header {
      assert TagNames[2] !in header;
    } else if "task" !in header {
      assert TagNames[3] !in header;
    } else if "newtag" !in header {
      assert TagNames[4] !in header;
    }
  }

  // ---------------------------------------------------------------------------
  // Desired tags of a row

  /** row[5:10]: at most five cells from the sixth on, fewer when the row is short. */
  function TagValues(row: seq<string>): (values: seq<string>)
    ensures |values| == if |row| <= 5 then 0 else if |row| >= 10 then 5 else |row| - 5
    ensures forall i :: 0 <= i < |values| ==> values[i] == row[5 + i]
  {
    if |row| <= 5 then [] else row[5..if |row| < 10 then |row| else 10]
  }

  /** zip(keys, values) as tags: stops at the shorter list. */
  function Zip(keys: seq<string>, values: seq<string>): (pairs: seq<Tag>)
    ensures |pairs| == if |keys| < |values| then |keys| else |values|
    ensures forall i :: 0 <= i < |pairs| ==> pairs[i] == Tag(keys[i], values[i])
  {
    if keys == [] || values == [] then [] else [Tag(keys[0], values[0])] + Zip(keys[1..], values[1..])
  }

  /** The comprehension's guard: a non-empty key and a value other than "null" (an empty value is kept). */
  predicate Keep(t: Tag)
  {
    t.key != "" && t.value != "null"
  }

  function DesiredTags(tagKeys: seq<string>, row: seq<string>): seq<Tag>
  {
    Filter(Keep, Zip(tagKeys, TagValues(row)))
  }

  lemma TagNamesDistinct()
    ensures forall i, j :: 0 <= i < j < |TagNames| ==> TagNames[i] != TagNames[j]
  {
  }

  /**
   * The desired tags pair the i-th name with cell 5 + i, keep exactly the
   * pairs whose value is not "null", stay in header order, and never repeat
   * a key.
   */
  lemma DesiredTagsSpec(row: seq<string>)
    ensures forall t :: t in DesiredTags(TagNames, row) <==>
      exists i :: 0 <= i < 5 && 5 + i < |row| && row[5 + i] != "null" && t == Tag(TagNames[i], row[5 + i])
    ensures IsSublist(DesiredTags(TagNames, row), Zip(TagNames, TagValues(row)))
    ensures UniqueKeys(DesiredTags(TagNames, row))
    ensures |DesiredTags(TagNames, row)| <= 5
  {
    var pairs := Zip(TagNames, TagValues(row));
    forall t | t in DesiredTags(TagNames, row)
      ensures exists i :: 0 <= i < 5 && 5 + i < |row| && row[5 + i] != "null" && t == Tag(TagNames[i], row[5 + i])
    {
      var i :| 0 <= i < |pairs| && pairs[i] == t;
    }
    forall i | 0 <= i < 5 && 5 + i < |row| && row[5 + i] != "null"
      ensures Tag(TagNames[i], row[5 + i]) in DesiredTags(TagNames, row)
    {
      assert pairs[i] == Tag(TagNames[i], row[5 + i]);
    }
    FilterIsSublist(Keep, pairs);
    TagNamesDistinct();
    FilterKeepsOrder(Keep, pairs, (a: Tag, b: Tag) => a.key != b.key);
  }

  // ---------------------------------------------------------------------------
  // The remote tag set of one instance

  /** create_tags on one tag: overwrite the value of a tag with the same key, or add the tag. */
  function Put(current: seq<Tag>, t: Tag): seq<Tag>
  {
    if current == [] then [t]
    else if current[0].key == t.key then [t] + current[1..]
    else [current[0]] + Put(current[1..], t)
  }

  lemma {:induction false} PutSpec(current: seq<Tag>, t: Tag)
    requires UniqueKeys(current)
    ensures UniqueKeys(Put(current, t))
    ensures forall u :: u in Put(current, t) <==> u == t || (u in current && u.key != t.key)
  {
    if current != [] && current[0].key != t.key {
      var rest := current[1..];
      assert UniqueKeys(rest) by {
        forall i, j | 0 <= i < j < |rest| ensures rest[i].key != rest[j].key {
          assert rest[i] == current[i + 1] && rest[j] == current[j + 1];
        }
      }
      PutSpec(rest, t);
      var r := [current[0]] + Put(rest, t);
      assert current == [current[0]] + rest;
      forall i, j | 0 <= i < j < |r| ensures r[i].key != r[j].key {
        if i == 0 {
          assert r[j] in Put(rest, t);
          if r[j] != t {
            var k :| 0 <= k < |rest| && rest[k] == r[j];
            assert current[k + 1] == r[j];
          }
        }
      }
    } else if current != [] {
      var r := [t] + current[1..];
      forall i, j | 0 <= i < j < |r| ensures r[i].key != r[j].key {
        assert r[j] == current[j];
        if i > 0 {
          assert r[i] == current[i];
        }
      }
      forall u | u in current && u.key != t.key ensures u in r {
        var k :| 0 <= k < |current| && current[k] == u;
      }
      forall u | u in current[1..] ensures u.key != t.key {
        var k :| 1 <= k < |current| && current[k] == u;
      }
    }
  }

  /** create_tags: the tags are written one after another. */
  function Upsert(current: seq<Tag>, ts: seq<Tag>): seq<Tag>
    decreases ts
  {
    if ts == [] then current else Upsert(Put(current, ts[0]), ts[1..])
  }

  lemma UniqueKeysTail(ts: seq<Tag>)
    requires ts != [] && UniqueKeys(ts)
    ensures UniqueKeys(ts[1..])
    ensures forall s :: s in ts[1..] ==> s.key != ts[0].key
  {
    var rest := ts[1..];
    forall i, j | 0 <= i < j < |rest|
      ensures rest[i].key != rest[j].key
    {
      assert rest[i] == ts[i + 1] && rest[j] == ts[j + 1];
    }
    forall s | s in rest
      ensures s.key != ts[0].key
    {
      var k :| 0 <= k < |rest| && rest[k] == s;
      assert ts[k + 1] == s;
    }
  }

  /** Writing keeps keys unique and keeps exactly the tags whose key was not written. */
  lemma {:induction false} UpsertKeeps(current: seq<Tag>, ts: seq<Tag>)
    requires UniqueKeys(current)
    ensures UniqueKeys(Upsert(current, ts))
    ensures forall u :: u in Upsert(current, ts) ==> u in ts || (u in current && forall s :: s in ts ==> s.key != u.key)
    ensures forall u :: u in current && (forall s :: s in ts ==> s.key != u.key) ==> u in Upsert(current, ts)
    decreases ts
  {
    if ts != [] {
      PutSpec(current, ts[0]);
      UpsertKeeps(Put(current, ts[0]), ts[1..]);
      assert ts == [ts[0]] + ts[1..];
    }
  }

  /** When the written keys are unique, every written tag ends up on the instance. */
  lemma {:induction false} UpsertWrites(current: seq<Tag>, ts: seq<Tag>)
    requires UniqueKeys(current) && UniqueKeys(ts)
    ensures forall t :: t in ts ==> t in Upsert(current, ts)
    decreases ts
  {
    if ts != [] {
      var next := Put(current, ts[0]);
      PutSpec(current, ts[0]);
      UniqueKeysTail(ts);
      UpsertWrites(next, ts[1..]);
      UpsertKeeps(next, ts[1..]);
      assert ts == [ts[0]] + ts[1..];
    }
  }

  /**
   * Writing keeps keys unique, adds every written tag (when the written keys
   * are themselves unique), and keeps exactly the tags whose key was not
   * written.
   */
  lemma UpsertSpec(current: seq<Tag>, ts: seq<Tag>)
    requires UniqueKeys(current)
    ensures UniqueKeys(Upsert(current, ts))
    ensures forall u :: u in Upsert(current, ts) ==> u in ts || (u in current && forall s :: s in ts ==> s.key != u.key)
    ensures forall u :: u in current && (forall s :: s in ts ==> s.key != u.key) ==> u in Upsert(current, ts)
    ensures UniqueKeys(ts) ==> forall t :: t in ts ==> t in Upsert(current, ts)
  {
    UpsertKeeps(current, ts);
    if UniqueKeys(ts) {
      UpsertWrites(current, ts);
    }
  }

  /** Filtering keeps keys unique. */
  lemma MinusUniqueKeys(a: seq<Tag>, b: seq<Tag>)
    requires UniqueKeys(a)
    ensures UniqueKeys(Minus(a, b))
  {
    FilterKeepsOrder(t => t !in b, a, (x: Tag, y: Tag) => x.key != y.key);
  }

  /** The tag set an instance ends with after a row: written, then its stale tags deleted. */
  function Reconciled(current: seq<Tag>, desired: seq<Tag>): seq<Tag>
  {
    var after := Upsert(current, desired);
    Minus(after, Minus(after, desired))
  }

  /**
   * After a row, the instance carries exactly the desired tags; and a second
   * pass with the same row writes the same tags again and deletes nothing.
   */
  lemma ReconciledSpec(current: seq<Tag>, desired: seq<Tag>)
    requires UniqueKeys(current) && UniqueKeys(desired)
    ensures UniqueKeys(Reconciled(current, desired))
    ensures forall t :: t in Reconciled(current, desired) <==> t in desired
    ensures Minus(Upsert(Reconciled(current, desired), desired), desired) == []
  {
    var after := Upsert(current, desired);
    UpsertSpec(current, desired);
    var stale := Minus(after, desired);
    var final := Minus(after, stale);
    MinusSpec(after, desired);
    MinusSpec(after, stale);
    MinusUniqueKeys(after, stale);
    UpsertSpec(final, desired);
    var again := Upsert(final, desired);
    MinusSpec(again, desired);
    forall u | u in again ensures u in desired {
      if u in final {
        assert u in desired;
      }
    }
  }

  /** The write of the worked example: B takes its new value in place, A is rewritten unchanged. */
  lemma WriteExample()
    ensures Upsert([Tag("A", "1"), Tag("B", "2"), Tag("C", "3")], [Tag("A", "1"), Tag("B", "5")])
         == [Tag("A", "1"), Tag("B", "5"), Tag("C", "3")]
  {
    var current := [Tag("A", "1"), Tag("B", "2"), Tag("C", "3")];
    var desired := [Tag("A", "1"), Tag("B", "5")];
    assert current[1..] == [Tag("B", "2"), Tag("C", "3")];
    assert Put(current, Tag("A", "1")) == current;
    assert Put(current[1..], Tag("B", "5")) == [Tag("B", "5"), Tag("C", "3")];
    assert Put(current, Tag("B", "5")) == [Tag("A", "1"), Tag("B", "5"), Tag("C", "3")];
    assert desired[1..] == [Tag("B", "5")] && desired[1..][1..] == [];
  }

  /** The stale tags of the worked example: only C:3. */
  lemma StaleExample()
    ensures Minus([Tag("A", "1"), Tag("B", "5"), Tag("C", "3")], [Tag("A", "1"), Tag("B", "5")]) == [Tag("C", "3")]
  {
    var after := [Tag("A", "1"), Tag("B", "5"), Tag("C", "3")];
    assert after[1..] == [Tag("B", "5"), Tag("C", "3")] && after[1..][1..] == [Tag("C", "3")];
  }

  /** Deleting C:3 leaves A:1 and B:5. */
  lemma KeptExample()
    ensures Minus([Tag("A", "1"), Tag("B", "5"), Tag("C", "3")], [Tag("C", "3")]) == [Tag("A", "1"), Tag("B", "5")]
  {
    var after := [Tag("A", "1"), Tag("B", "5"), Tag("C", "3")];
    assert after[1..] == [Tag("B", "5"), Tag("C", "3")] && after[1..][1..] == [Tag("C", "3")];
  }

  /**
   * The worked example of a reconciliation: with A:1, B:2, C:3 on the
   * instance and A:1, B:5 desired, the write turns B into 5, exactly C:3 is
   * deleted, and A:1, B:5 remain.
   */
  lemma ReconcileExample()
    ensures var current := [Tag("A", "1"), Tag("B", "2"), Tag("C", "3")];
            var desired := [Tag("A", "1"), Tag("B", "5")];
            && Upsert(current, desired) == [Tag("A", "1"), Tag("B", "5"), Tag("C", "3")]
            && Minus(Upsert(current, desired), desired) == [Tag("C", "3")]
            && Reconciled(current, desired) == [Tag("A", "1"), Tag("B", "5")]
  {
    WriteExample();
    StaleExample();
    KeptExample();
  }

  // ---------------------------------------------------------------------------
  // The provider

  /** A request the run sends to the provider. */
  datatype Call = Create(id: string, tags: seq<Tag>) | Describe(id: string) | Delete(id: string, tags: seq<Tag>)

  /**
   * The provider's tag state: the tag set of every known instance, and the
   * requests received so far.
   */
  class Ec2 {
    var tags: map<string, seq<Tag>>
    ghost var calls: seq<Call>

    /** An instance never carries two tags with one key. */
    ghost predicate Valid()
      reads this
    {
      forall id :: id in tags ==> UniqueKeys(tags[id])
    }

    constructor (fleet: map<string, seq<Tag>>)
      requires forall id :: id in fleet ==> UniqueKeys(fleet[id])
      ensures Valid() && tags == fleet && calls == []
    {
      tags := fleet;
      calls := [];
    }

    /** create_tags: write the tags onto a known instance; an unknown id is rejected. */
    method CreateTags(instanceId: string, newTags: seq<Tag>) returns (outcome: Outcome)
      requires Valid()
      modifies this
      ensures Valid()
      ensures calls == old(calls) + [Create(instanceId, newTags)]
      ensures instanceId in old(tags) ==>
        outcome == Done && tags == old(tags)[instanceId := Upsert(old(tags)[instanceId], newTags)]
      ensures instanceId !in old(tags) ==> outcome == Raised(InvalidInstanceId(instanceId)) && tags == old(tags)
    {
      calls := calls + [Create(instanceId, newTags)];
      if instanceId !in tags {
        return Raised(InvalidInstanceId(instanceId));
      }
      UpsertSpec(tags[instanceId], newTags);
      tags := tags[instanceId := Upsert(tags[instanceId], newTags)];
      return Done;
    }

    /** `ec2.Instance(id).tags`: the instance's tags, None when it has none. */
    method InstanceTags(instanceId: string) returns (fetched: Result<Option<seq<Tag>>, Error>)
      modifies this
      ensures tags == old(tags)
      ensures calls == old(calls) + [Describe(instanceId)]
      ensures fetched == if instanceId !in tags then Err(InvalidInstanceId(instanceId))
                         else if tags[instanceId] == [] then Ok(None)
                         else Ok(Some(tags[instanceId]))
    {
      calls := calls + [Describe(instanceId)];
      if instanceId !in tags {
        return Err(InvalidInstanceId(instanceId));
      }
      fetched := if tags[instanceId] == [] then Ok(None) else Ok(Some(tags[instanceId]));
    }

    /** delete_tags: remove every tag of the instance equal, key and value, to a listed one. */
    method DeleteTags(instanceId: string, stale: seq<Tag>) returns (outcome: Outcome)
      requires Valid()
      modifies this
      ensures Valid()
      ensures calls == old(calls) + [Delete(instanceId, stale)]
      ensures instanceId in old(tags) ==>
        outcome == Done && tags == old(tags)[instanceId := Minus(old(tags)[instanceId], stale)]
      ensures instanceId !in old(tags) ==> outcome == Raised(InvalidInstanceId(instanceId)) && tags == old(tags)
    {
      calls := calls + [Delete(instanceId, stale)];
      if instanceId !in tags {
        return Raised(InvalidInstanceId(instanceId));
      }
      MinusUniqueKeys(tags[instanceId], stale);
      tags := tags[instanceId := Minus(tags[instanceId], stale)];
      return Done;
    }
  }

  // ---------------------------------------------------------------------------
  // One data row

  /**
   * The provider calls for one row: write the desired tags, fetch the
   * instance's tags, and delete the stale ones when there are any. The write
   * always comes first, even with no desired tags, and the fetch follows it.
   */
  method Reconcile(ec2: Ec2, instanceId: string, tags: seq<Tag>) returns (outcome: Outcome)
    requires ec2.Valid() && UniqueKeys(tags)
    modifies ec2
    ensures ec2.Valid()
    ensures instanceId !in old(ec2.tags) ==>
      && outcome == Raised(InvalidInstanceId(instanceId))
      && ec2.tags == old(ec2.tags)
      && ec2.calls == old(ec2.calls) + [Create(instanceId, tags)]
    ensures instanceId in old(ec2.tags) ==>
      var stale := Minus(Upsert(old(ec2.tags)[instanceId], tags), tags);
      && outcome == Done
      && ec2.tags == old(ec2.tags)[instanceId := Reconciled(old(ec2.tags)[instanceId], tags)]
      && ec2.calls == old(ec2.calls) + [Create(instanceId, tags), Describe(instanceId)] +
                      (if stale == [] then [] else [Delete(instanceId, stale)])
      && forall t :: t in ec2.tags[instanceId] <==> t in tags
  {
    outcome := ec2.CreateTags(instanceId, tags);
    if outcome.Raised? {
      return;
    }
    var fetched := ec2.InstanceTags(instanceId);
    // the write has just succeeded, so the provider knows the instance
    assert fetched.Ok?;
    var existingTags := if fetched.value.Some? then fetched.value.value else [];
    ghost var written := Upsert(old(ec2.tags)[instanceId], tags);
    assert existingTags == written;
    AppendPair(old(ec2.calls), Create(instanceId, tags), Describe(instanceId));
    ReconciledSpec(old(ec2.tags)[instanceId], tags);
    var tagsToDelete := Minus(existingTags, tags);
    if tagsToDelete != [] {
      outcome := ec2.DeleteTags(instanceId, tagsToDelete);
      UpdateTwice(old(ec2.tags), instanceId, written, Reconciled(old(ec2.tags)[instanceId], tags));
    } else {
      MinusNothing(existingTags);
      AppendNil(ec2.calls);
    }
  }

  /**
   * The exception one data line raises, checked in the order the loop body
   * meets them: the first cell, the header's tag names, then the provider's
   * answer to the write.
   */
  function RowFault(header: seq<string>, row: seq<string>, known: map<string, seq<Tag>>): Option<Error>
  {
    if row == [] then Some(IndexError)
    else if TagKeys(header).Err? then Some(TagKeys(header).error)
    else if row[0] !in known then Some(InvalidInstanceId(row[0]))
    else None
  }

  /** The provider's tags after one data line: unchanged when the line raises, else its instance reconciled. */
  function RowEffect(known: map<string, seq<Tag>>, header: seq<string>, row: seq<string>): map<string, seq<Tag>>
  {
    if RowFault(header, row, known).Some? then known
    else known[row[0] := Reconciled(known[row[0]], DesiredTags(TagNames, row))]
  }

  /**
   * A line that raises changes nothing. A line that goes through leaves its
   * instance with exactly the desired tags, keys unique, and every other
   * instance as it was; no instance appears or disappears.
   */
  lemma RowEffectSpec(known: map<string, seq<Tag>>, header: seq<string>, row: seq<string>)
    requires forall id :: id in known ==> UniqueKeys(known[id])
    ensures forall id :: id in RowEffect(known, header, row) <==> id in known
    ensures forall id :: id in known ==> UniqueKeys(RowEffect(known, header, row)[id])
    ensures RowFault(header, row, known).Some? ==> RowEffect(known, header, row) == known
    ensures RowFault(header, row, known).None? ==>
      && (forall id :: id in known && id != row[0] ==> RowEffect(known, header, row)[id] == known[id])
      && (forall t :: t in RowEffect(known, header, row)[row[0]] <==> t in DesiredTags(TagNames, row))
  {
    if RowFault(header, row, known).None? {
      DesiredTagsSpec(row);
      ReconciledSpec(known[row[0]], DesiredTags(TagNames, row));
    }
  }

  /**
   * The body of the row loop: read the id, derive the desired tags from the
   * header and the row, and reconcile the instance with them.
   */
  method ApplyRow(ec2: Ec2, header: seq<string>, row: seq<string>) returns (outcome: Outcome)
    requires ec2.Valid()
    modifies ec2
    ensures ec2.Valid()
    ensures var fault := RowFault(header, row, old(ec2.tags));
            outcome == if fault.Some? then Raised(fault.value) else Done
    ensures ec2.tags == RowEffect(old(ec2.tags), header, row)
    ensures row == [] || TagKeys(header).Err? ==> ec2.calls == old(ec2.calls)
    ensures row != [] && TagKeys(header).Ok? && row[0] !in old(ec2.tags) ==>
      ec2.calls == old(ec2.calls) + [Create(row[0], DesiredTags(TagNames, row))]
    ensures RowFault(header, row, old(ec2.tags)).None? ==>
      var desired := DesiredTags(TagNames, row);
      var stale := Minus(Upsert(old(ec2.tags)[row[0]], desired), desired);
      ec2.calls == old(ec2.calls) + [Create(row[0], desired), Describe(row[0])] +
                   (if stale == [] then [] else [Delete(row[0], stale)])
  {
    if row == [] {
      return Raised(IndexError);
    }
    var instanceId := row[0];
    var keys := TagKeys(header);
    TagKeysSpec(header);
    if keys.Err? {
      return Raised(keys.error);
    }
    var tagKeys := keys.value;
    var tagValues := TagValues(row);
    var tags := Filter(Keep, Zip(tagKeys, tagValues));
    DesiredTagsSpec(row);
    outcome := Reconcile(ec2, instanceId, tags);
  }

  // ---------------------------------------------------------------------------
  // The whole file

  /** What a raised error says about the file and the instances the provider knew. */
  ghost predicate Explains(lines: seq<seq<string>>, known: map<string, seq<Tag>>, e: Error)
  {
    match e
    case StopIteration => lines == []
    case IndexError => exists k :: 1 <= k < |lines| && lines[k] == []
    case ValueError(missing) => lines != [] && missing in TagNames && missing !in lines[0]
    case InvalidInstanceId(id) =>
      id !in known && exists k :: 1 <= k < |lines| && lines[k] != [] && lines[k][0] == id
  }

  /**
   * A data line's error is traced back to that line: an empty line, a tag
   * name missing from the header, or an id the provider does not know.
   */
  lemma RowFaultExplains(lines: seq<seq<string>>, known: map<string, seq<Tag>>, i: nat)
    requires 1 <= i < |lines| && RowFault(lines[0], lines[i], known).Some?
    ensures RowFault(lines[0], lines[i], known).value != StopIteration
    ensures Explains(lines, known, RowFault(lines[0], lines[i], known).value)
  {
    TagKeysSpec(lines[0]);
  }

  /** The last data line that names the instance, if any. */
  function LastRowFor(rows: seq<seq<string>>, instanceId: string): (last: Option<seq<string>>)
    ensures last.Some? ==> last.value in rows && last.value != [] && last.value[0] == instanceId
    ensures last.None? <==> forall k :: 0 <= k < |rows| ==> rows[k] == [] || rows[k][0] != instanceId
  {
    if rows == [] then None
    else
      var row := rows[|rows| - 1];
      if row != [] && row[0] == instanceId then Some(row) else LastRowFor(rows[..|rows| - 1], instanceId)
  }

  /** An instance's tags after the run: untouched if no line names it, else exactly the last such line's tags. */
  ghost predicate Settled(before: seq<Tag>, now: seq<Tag>, last: Option<seq<string>>)
  {
    match last
    case None => now == before
    case Some(row) => forall t :: t in now <==> t in DesiredTags(TagNames, row)
  }

  /** Every instance is settled with respect to the lines applied so far. */
  ghost predicate AllSettled(origin: map<string, seq<Tag>>, now: map<string, seq<Tag>>, rows: seq<seq<string>>)
  {
    forall id :: id in now ==> id in origin && Settled(origin[id], now[id], LastRowFor(rows, id))
  }

  /** Applying one more line settles the instance it names and leaves every other instance as it was. */
  lemma SettledStep(origin: map<string, seq<Tag>>, before: map<string, seq<Tag>>,
                    rows: seq<seq<string>>, header: seq<string>, row: seq<string>)
    requires forall id :: id in before ==> UniqueKeys(before[id])
    requires AllSettled(origin, before, rows)
    requires RowFault(header, row, before).None?
    ensures AllSettled(origin, RowEffect(before, header, row), rows + [row])
  {
    RowEffectSpec(before, header, row);
    SnocPrefix(rows, row);
  }

  /** The provider's tags after each of `rows` has been applied in turn. */
  function Applied(known: map<string, seq<Tag>>, header: seq<string>, rows: seq<seq<string>>): map<string, seq<Tag>>
  {
    if rows == [] then known
    else RowEffect(Applied(known, header, rows[..|rows| - 1]), header, rows[|rows| - 1])
  }

  /** None of `rows` raises. */
  predicate NoFault(header: seq<string>, rows: seq<seq<string>>, known: map<string, seq<Tag>>)
  {
    forall k :: 0 <= k < |rows| ==> RowFault(header, rows[k], known).None?
  }

  /** Whether a line raises depends only on which instances the provider knows. */
  lemma RowFaultKeys(header: seq<string>, row: seq<string>, a: map<string, seq<Tag>>, b: map<string, seq<Tag>>)
    requires forall id :: id in a <==> id in b
    ensures RowFault(header, row, a) == RowFault(header, row, b)
  {
  }

  lemma AppliedSnoc(known: map<string, seq<Tag>>, header: seq<string>, rows: seq<seq<string>>, row: seq<string>)
    ensures Applied(known, header, rows + [row]) == RowEffect(Applied(known, header, rows), header, row)
  {
    SnocPrefix(rows, row);
  }

  lemma NoFaultSnoc(header: seq<string>, rows: seq<seq<string>>, row: seq<string>, known: map<string, seq<Tag>>)
    requires NoFault(header, rows, known) && RowFault(header, row, known).None?
    ensures NoFault(header, rows + [row], known)
  {
    forall k | 0 <= k < |rows| + 1
      ensures RowFault(header, (rows + [row])[k], known).None?
    {
      if k < |rows| {
        assert (rows + [row])[k] == rows[k];
      }
    }
  }

  /** Applying lines keeps every known instance known, adds none, and keeps keys unique. */
  lemma {:induction false} AppliedKeeps(known: map<string, seq<Tag>>, header: seq<string>, rows: seq<seq<string>>)
    requires forall id :: id in known ==> UniqueKeys(known[id])
    ensures forall id :: id in Applied(known, header, rows) <==> id in known
    ensures forall id :: id in Applied(known, header, rows) ==> UniqueKeys(Applied(known, header, rows)[id])
  {
    if rows != [] {
      var init := rows[..|rows| - 1];
      AppliedKeeps(known, header, init);
      RowEffectSpec(Applied(known, header, init), header, rows[|rows| - 1]);
    }
  }

  /**
   * When no line raises, every instance ends with exactly the tags of the
   * last line naming it, and an instance no line names keeps its tags.
   */
  lemma {:induction false} AppliedSettles(origin: map<string, seq<Tag>>, header: seq<string>, rows: seq<seq<string>>)
    requires forall id :: id in origin ==> UniqueKeys(origin[id])
    requires NoFault(header, rows, origin)
    ensures AllSettled(origin, Applied(origin, header, rows), rows)
  {
    if rows != [] {
      var init := rows[..|rows| - 1];
      var row := rows[|rows| - 1];
      assert NoFault(header, init, origin) by {
        forall k | 0 <= k < |init|
          ensures RowFault(header, init[k], origin).None?
        {
          assert init[k] == rows[k];
        }
      }
      AppliedSettles(origin, header, init);
      AppliedKeeps(origin, header, init);
      RowFaultKeys(header, row, Applied(origin, header, init), origin);
      SettledStep(origin, Applied(origin, header, init), init, header, row);
      SnocInit(rows);
    }
  }

  /**
   * read_csv_and_apply_tags over the lines of the file: the first line is
   * the header, every further line is applied in turn, and the first
   * exception stops the run with the earlier lines' effects kept.
   */
  method ReadCsvAndApplyTags(ec2: Ec2, lines: seq<seq<string>>) returns (outcome: Outcome)
    requires ec2.Valid()
    modifies ec2
    ensures ec2.Valid()
    ensures forall id :: id in ec2.tags <==> id in old(ec2.tags)
    ensures outcome == Raised(StopIteration) <==> lines == []
    ensures lines == [] ==> ec2.tags == old(ec2.tags)
    ensures |lines| == 1 ==> outcome == Done && ec2.tags == old(ec2.tags)
    ensures outcome == Done ==>
      ec2.tags == Applied(old(ec2.tags), lines[0], lines[1..]) && AllSettled(old(ec2.tags), ec2.tags, lines[1..])
    ensures outcome.Raised? && lines != [] ==>
      exists k :: 1 <= k < |lines| && NoFault(lines[0], lines[1..k], old(ec2.tags)) &&
                  RowFault(lines[0], lines[k], old(ec2.tags)) == Some(outcome.error) &&
                  ec2.tags == Applied(old(ec2.tags), lines[0], lines[1..k])
    ensures outcome.Raised? ==> Explains(lines, old(ec2.tags), outcome.error)
    ensures outcome == Done <==> lines != [] && NoFault(lines[0], lines[1..], old(ec2.tags))
  {
    if lines == [] {
      return Raised(StopIteration);
    }
    var header := lines[0];
    for i := 1 to |lines|
      invariant ec2.Valid()
      invariant ec2.tags == Applied(old(ec2.tags), header, lines[1..i])
      invariant NoFault(header, lines[1..i], old(ec2.tags))
    {
      var row := lines[i];
      AppliedKeeps(old(ec2.tags), header, lines[1..i]);
      RowFaultKeys(header, row, ec2.tags, old(ec2.tags));
      outcome := ApplyRow(ec2, header, row);
      if outcome.Raised? {
        RowFaultExplains(lines, old(ec2.tags), i);
        return;
      }
      AppliedSnoc(old(ec2.tags), header, lines[1..i], row);
      NoFaultSnoc(header, lines[1..i], row, old(ec2.tags));
      SliceExtend(lines, 1, i);
    }
    assert lines[1..|lines|] == lines[1..];
    AppliedKeeps(old(ec2.tags), header, lines[1..]);
    AppliedSettles(old(ec2.tags), header, lines[1..]);
    outcome := Done;
  }
}
