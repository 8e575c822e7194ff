# ec2-tags-management in Dafny

This project models the two scripts of `ec2-tags-management` and proves properties about them.

**Instance search** (`search-instances.py`) reads a file of query lines. Each line is either an IPv4 address or an instance id. The script then:
- turns every listed EC2 instance into a record: id, public and private address, `hostname` taken from the `Name` tag, and state, with all tags merged on top;
- indexes the records in a multi-key `Table` by instance id, by private address and by public address;
- resolves the id queries, then the address queries, private address first;
- writes the matched records out with a header made of five fixed columns followed by every other key, sorted, and with running instances first.

**Tag reconciliation** (`ec2-tags-apply.py`) reads a CSV export. For each data line it:
- derives the desired tags from the five tag columns;
- writes them onto the instance;
- fetches the instance's tags;
- deletes every tag, compared by key and value, that the line does not ask for.

The modules are:
- `common.dfy` (`Common`): `Option`, `Result`, `Tag`, list filtering and list difference, and Python's `str` order with `list.sort()`.
- `instance_table.dfy` (`InstanceTable`): the `Table` class. Its three dictionaries are tied to the list of added records by the invariant `Valid()`.
- `query_input.dfy` (`QueryInput`): `str.strip()`, the dotted-quad test and `parse_input_file`.
- `fleet_search.dfy` (`FleetSearch`): hostnames, `dict_format`, records, query resolution, export header and export rows, and the whole search as `Search`.
- `tags_apply.dfy` (`TagsApply`): header lookup, desired tags, `tags_to_delete`, and the provider's tag state as the class `Ec2`. That class keeps a ghost log of the requests it receives. The file also holds the per-line loop.

`get_rows()` is the `rows` field of `Table` itself.

A cell of a record is `Option<string>`, where `None` is Python's `None`. A record is a `map<string, Option<string>>`.

The provider is a parameter of the model:
- the instance list given to `FleetSearch.Search`;
- the `Ec2` object given to `TagsApply.ReadCsvAndApplyTags`.

Files are parameters too: the query file is a sequence of lines, and the CSV file is a sequence of rows of cells.

## Model

| member | source | states |
|---|---|---|
| InstanceTable.Table.constructor | ec2-tags-management/search-instances.py:11-15 | A new table has no records and three empty dictionaries, and satisfies its invariant. |
| InstanceTable.Table.AddRow | ec2-tags-management/search-instances.py:18-23 | The record is appended after all earlier ones, which stay unchanged. The id dictionary is updated under the record's id, and the private one under its private address even when that is None. The public dictionary changes only for a present, non-empty public address. A missing `Instance_id` or `Private_ip` raises KeyError only after the append (and, for `Private_ip`, after the id entry). The invariant is kept. |
| InstanceTable.IndexOf | ec2-tags-management/search-instances.py:18-23 | Computes the dictionary that add_row calls on each record in turn leave behind. A record that reaches the dictionary is stored under its field value and overwrites an earlier record with that key. A record stopped earlier by KeyError, or a public address that is None or empty, leaves the dictionary unchanged. |
| InstanceTable.IndexOfSpec | ec2-tags-management/search-instances.py:20-23 | A dictionary holds exactly the keys some added record was stored under. A key maps to the last such record: a later write overwrites an earlier one. |
| InstanceTable.IndexOfValues | ec2-tags-management/search-instances.py:20-23 | Every record a dictionary points to is one of the added records. |
| InstanceTable.Table.GetRowInstanceId | ec2-tags-management/search-instances.py:30-31 | The result is None exactly when no record was stored under the id. Otherwise it is the last record stored under it. |
| InstanceTable.Table.GetRowPrivateIpv4 | ec2-tags-management/search-instances.py:34-35 | The result is None exactly when no record was stored under that private address. Otherwise it is the last record stored under it. |
| InstanceTable.Table.GetRowPublicIpv4 | ec2-tags-management/search-instances.py:38-39 | The result is None exactly when no record was stored under that public address, which only a present, non-empty public address of a record that raised no KeyError is. Otherwise it is the last record stored under it. |
| InstanceTable.Table.ContainsInstanceId | ec2-tags-management/search-instances.py:42-43 | True exactly when some added record was stored under the id. |
| InstanceTable.Table.ContainsPrivateIpv4 | ec2-tags-management/search-instances.py:46-47 | True exactly when some added record was stored under that private address. |
| InstanceTable.Table.ContainsPublicIpv4 | ec2-tags-management/search-instances.py:50-51 | True exactly when some record was stored under that public address, that is, some added record that raised no KeyError has it as its present, non-empty public address. |
| QueryInput.IsIPv4 | ec2-tags-management/search-instances.py:59-64 | True exactly when the string splits at `.` into four fields. Each field has one to three ASCII digits, no leading zero unless it is `0`, and a value of at most 255. |
| QueryInput.Strip | ec2-tags-management/search-instances.py:74-77 | The result is a slice of the line. Only whitespace is cut from either side, and the result neither starts nor ends with whitespace. |
| QueryInput.Stripped | ec2-tags-management/search-instances.py:73-77 | One stripped line per line of the file, in file order. |
| QueryInput.JoinSplit | ec2-tags-management/search-instances.py:59-64 | A helper of the dotted-quad test that `IsIPv4` uses in place of the `ipaddress` parser: joining the pieces of `Split` with the separator gives the string back, so `Split` loses no character. |
| QueryInput.IPv4Chars | ec2-tags-management/search-instances.py:59-64 | A string accepted as an address consists of digits and dots only. |
| QueryInput.DottedQuad | ec2-tags-management/search-instances.py:59-64 | Any four octets joined by dots are accepted as an address. |
| QueryInput.BadFirstOctet | ec2-tags-management/search-instances.py:59-64 | A string whose text before the first dot is not an octet is rejected. |
| QueryInput.AddressExample | ec2-tags-management/search-instances.py:59-64 | `10.0.0.5` is accepted as an address. |
| QueryInput.OutOfRangeExample | ec2-tags-management/search-instances.py:59-64 | `999.999.999.999` is rejected: an octet above 255. |
| QueryInput.InstanceIdExample | ec2-tags-management/search-instances.py:59-64 | An instance id such as `i-0123456789abcdef0` is not taken for an address. |
| QueryInput.ParseInputFile | ec2-tags-management/search-instances.py:68-78 | The address list is the stripped lines that are addresses, in file order. The instance list is the other stripped lines, in file order. |
| QueryInput.ParseInputFileSpec | ec2-tags-management/search-instances.py:73-78 | Every stripped line lands in exactly one list: together the lists are a permutation of the lines. A line lands in the address list exactly when it is an address. Each list is a sub-list of the lines, so file order is kept. |
| FleetSearch.NameTag | ec2-tags-management/search-instances.py:123-127 | The value of the first tag whose key is `Name`, or None when there is no such tag. |
| FleetSearch.HostNameAsWritten | ec2-tags-management/search-instances.py:123-127 | The hostname loop as written: TypeError when the tag list is None, otherwise the `NameTag` of the list. |
| FleetSearch.NameTagSpec | ec2-tags-management/search-instances.py:123-127 | The hostname is None exactly when no tag has key `Name`. Otherwise it is the value of the first such tag. |
| FleetSearch.FindHostName | ec2-tags-management/search-instances.py:123-127 | The loop that stops at the first `Name` tag computes that hostname, and treats a missing tag list as an empty one (see Findings). |
| FleetSearch.UntaggedInstanceAborts | ec2-tags-management/search-instances.py:122-127 | As written, the hostname loop raises on an instance without tags, while `dict_format` and the corrected loop give no tags and no name. Wherever the loop as written succeeds, it agrees with the corrected one. |
| FleetSearch.TagDict | ec2-tags-management/search-instances.py:86-88 | Maps each tag's key to its value, writing the tags in list order, so a later tag overwrites an earlier tag with the same key. |
| FleetSearch.TagDictSpec | ec2-tags-management/search-instances.py:82-88 | The dict's keys are exactly the tags' keys. A repeated key takes the value of its last tag. |
| FleetSearch.DictFormat | ec2-tags-management/search-instances.py:82-88 | None or an empty list gives an empty dict. Otherwise the result is the tags flattened key by key, later tags winning. |
| FleetSearch.Record | ec2-tags-management/search-instances.py:128-135 | `info_dict`: five fixed fields, updated with the instance's tag dict so that a tag overrides the fixed field of its name. The fixed fields are the id, the public and private addresses, the hostname from the corrected loop, and the state. |
| FleetSearch.Records | ec2-tags-management/search-instances.py:122-136 | One record per listed instance, in listing order. These are the records the fleet table receives. |
| FleetSearch.RecordSpec | ec2-tags-management/search-instances.py:128-135 | A record has the five fixed fields plus one field per tag key, and no other field. A tag overrides a fixed field of the same name. A record always carries `Instance_id` and `Private_ip`. |
| FleetSearch.RecordsIndexable | ec2-tags-management/search-instances.py:128-136 | Every fleet record has both mandatory keys, so adding it never raises. |
| FleetSearch.BuildFleet | ec2-tags-management/search-instances.py:119-136 | The fleet table holds one record per listed instance, in listing order, and satisfies the table invariant. It uses the corrected hostname loop; see Findings. |
| FleetSearch.Resolve1 | ec2-tags-management/search-instances.py:142-149 | The record one query finds. An id query looks in the id dictionary. An address query looks in the private dictionary first and, only on a miss, in the public one. None when nothing matches. |
| FleetSearch.Hits | ec2-tags-management/search-instances.py:142-149 | The records that a list of queries of one kind finds, in query order. A query that finds nothing adds nothing, and a repeated query adds its record again. |
| FleetSearch.Resolve1Spec | ec2-tags-management/search-instances.py:142-149 | An id finds the last record listed with it. An address finds the last record with that private address. Only when there is none does it find the last record with that public address. Otherwise it finds nothing. |
| FleetSearch.HitsSpec | ec2-tags-management/search-instances.py:142-149 | Every found record is a fleet record found by one of the queries. There are at most as many records as queries. There are exactly as many only when every query finds something: a miss adds nothing, and repeats are not merged. |
| FleetSearch.Resolve | ec2-tags-management/search-instances.py:140-149 | The search table holds the records found by the id queries, in query order, followed by those found by the address queries. |
| FleetSearch.ExportColumns | ec2-tags-management/search-instances.py:151-173 | The header is the five fixed columns in order, followed by every other key of the matched records, sorted, each once. |
| Common.StrLe | ec2-tags-management/search-instances.py:156 | Python's `<=` on str: lexicographic by code point, with a proper prefix before the longer string. |
| Common.SortStrings | ec2-tags-management/search-instances.py:156 | `list.sort()` on str, computed as an insertion sort under `StrLe`. |
| Common.SortStringsSpec | ec2-tags-management/search-instances.py:156 | `list.sort()` gives a sorted permutation of the list. |
| Common.SortStringsDistinct | ec2-tags-management/search-instances.py:156 | Sorting a list without duplicates gives a list without duplicates. |
| FleetSearch.ExportHeaderUnique | ec2-tags-management/search-instances.py:151-156 | The header does not depend on the order in which keys were met: any two lists meeting the header's description are equal. |
| FleetSearch.ExportHeaderCovers | ec2-tags-management/search-instances.py:151-173 | Every key of every matched record is a column of the header. |
| FleetSearch.InsertByState | ec2-tags-management/search-instances.py:179-181 | Inserts a record into a list already ordered by the key `Instance_state != "running"`. A running record goes to the front. Any other record goes after the running ones, before the first record that is not running. |
| FleetSearch.SortByState | ec2-tags-management/search-instances.py:179-181 | `sorted(rows, key=...)` on that boolean key, computed as an insertion sort with `InsertByState`. |
| FleetSearch.SortByStateSpec | ec2-tags-management/search-instances.py:179-181 | The output order is every running record in table order, followed by every other record in table order. |
| FleetSearch.SortByStatePermutes | ec2-tags-management/search-instances.py:179-181 | Ordering the records by state loses and adds no record. |
| FleetSearch.Project | ec2-tags-management/search-instances.py:182 | One output line: for each column, the record's value, None included, or `"null"` when the record lacks the column. |
| FleetSearch.OutputRows | ec2-tags-management/search-instances.py:179-182 | The data lines of the export: the records in `SortByState` order, each projected onto the columns. |
| FleetSearch.ProjectSpec | ec2-tags-management/search-instances.py:182 | Each cell holds the record's value for its column, None included. `"null"` stands only for a column the record lacks. When the columns cover the record, every field appears under its own column. |
| FleetSearch.OutputRowsSpec | ec2-tags-management/search-instances.py:179-182 | Under the export header there is one output line per record. Line n is the n-th record of the running records followed by the others, each group in table order, with every field of that record under its own column. |
| FleetSearch.Search | ec2-tags-management/search-instances.py:116-182 | The export header and lines are those of the records that the classified queries find in the fleet. It uses the corrected hostname loop; see Findings. |
| TagsApply.IndexIn | ec2-tags-management/ec2-tags-apply.py:23-28 | `list.index` gives the first position of the name, or raises ValueError when the name is absent. |
| TagsApply.TagKeys | ec2-tags-management/ec2-tags-apply.py:23-31 | `tag_keys`: the header cells at the positions `list.index` gives for `Name`, `Rname`, `se`, `task` and `newtag`, looked up in that order. The first missing name raises ValueError. |
| TagsApply.TagKeysSpec | ec2-tags-management/ec2-tags-apply.py:23-31 | The tag keys are exactly `Name, Rname, se, task, newtag` whenever the header has all five names, whatever the row. Otherwise ValueError is raised for the first missing name. |
| TagsApply.TagValues | ec2-tags-management/ec2-tags-apply.py:33 | The slice holds cells 5 to 9, and fewer when the row is short. |
| TagsApply.Zip | ec2-tags-management/ec2-tags-apply.py:36 | The i-th pair holds the i-th key and the i-th value. Pairing stops at the shorter list. |
| TagsApply.Keep | ec2-tags-management/ec2-tags-apply.py:36 | The guard of the comprehension: a non-empty key and a value other than `"null"`. |
| TagsApply.DesiredTags | ec2-tags-management/ec2-tags-apply.py:31-36 | The tags one line asks for: the tag keys zipped with `row[5:10]`, kept where `Keep` holds, in header order. |
| TagsApply.DesiredTagsSpec | ec2-tags-management/ec2-tags-apply.py:31-36 | A tag is desired exactly when it pairs the i-th name with cell 5 + i and that cell exists and is not `"null"`, so an empty value is kept. Desired tags keep header order, never repeat a key, and number at most five. |
| Common.Minus | ec2-tags-management/ec2-tags-apply.py:48 | `[x for x in a if x not in b]`: the elements of `a` that do not occur in `b`, in order and with repeats. |
| Common.MinusSpec | ec2-tags-management/ec2-tags-apply.py:48-49 | `tags_to_delete` is exactly the existing tags, compared by key and value, that are not desired. It keeps existing order, so it is a sub-list of the existing tags disjoint from the desired ones. It is empty exactly when every existing tag is desired. |
| TagsApply.Put | ec2-tags-management/ec2-tags-apply.py:4-6 | `create_tags` for one tag. The first tag with the same key gets the new value in its place; without such a tag, the tag is appended. |
| TagsApply.Upsert | ec2-tags-management/ec2-tags-apply.py:4-6 | `create_tags` for a list: the tags are written one after another with `Put`. |
| TagsApply.PutSpec | ec2-tags-management/ec2-tags-apply.py:4-6 | Writing one tag replaces the tag with the same key or adds it. Keys stay unique. |
| TagsApply.UpsertSpec | ec2-tags-management/ec2-tags-apply.py:4-6 | Writing tags keeps keys unique. A tag survives exactly when its key was not written. When the written keys are unique, every written tag is present afterwards. |
| TagsApply.Reconciled | ec2-tags-management/ec2-tags-apply.py:39-50 | The tag set after one line: the desired tags are written, then every tag that is not among the desired ones is deleted. |
| TagsApply.ReconciledSpec | ec2-tags-management/ec2-tags-apply.py:39-50 | After a line, the instance carries exactly the desired tags. A second pass with the same line deletes nothing. |
| TagsApply.ReconcileExample | ec2-tags-management/ec2-tags-apply.py:39-50 | Start with A:1, B:2, C:3 and desire A:1, B:5. The write turns B into 5, exactly C:3 is deleted, and A:1, B:5 remain. |
| TagsApply.Ec2.constructor | ec2-tags-management/ec2-tags-apply.py:4-10 | The provider starts with a given tag set for each known instance, keys unique, and has received no requests. |
| TagsApply.Ec2.CreateTags | ec2-tags-management/ec2-tags-apply.py:4-6 | A known instance gets the tags written. An unknown id is rejected with nothing changed. The request is logged either way. |
| TagsApply.Ec2.InstanceTags | ec2-tags-management/ec2-tags-apply.py:43-45 | Fetching returns the instance's tags, or None when it has none, and changes no tag. |
| TagsApply.Ec2.DeleteTags | ec2-tags-management/ec2-tags-apply.py:8-10 | Exactly the listed tags, matched by key and value, are removed. |
| TagsApply.Reconcile | ec2-tags-management/ec2-tags-apply.py:39-50 | The write is always sent first, even with no desired tags, and the fetch follows it. A delete is sent only when stale tags remain. Afterwards the instance carries exactly the desired tags. An unknown id stops after the write request. |
| TagsApply.ApplyRow | ec2-tags-management/ec2-tags-apply.py:19-51 | The line raises the first applicable error, in the order the loop body meets them. A line without cells raises IndexError. A header without a tag name raises ValueError before any request. An unknown instance raises after its write request. The tags become `RowEffect`: unchanged when the line raises, otherwise the named instance reconciled with the line's desired tags. |
| TagsApply.RowFault | ec2-tags-management/ec2-tags-apply.py:19-39 | The exception a data line raises, checked in the order the loop body meets them. IndexError for a line without cells comes first, then the header's ValueError, then the provider's InvalidInstanceId for an unknown id. None when the line goes through. |
| TagsApply.RowEffect | ec2-tags-management/ec2-tags-apply.py:19-51 | The provider's tags after one data line. They are unchanged when the line raises. Otherwise the line's instance gets `Reconciled` of its tags and the line's desired tags. |
| TagsApply.RowEffectSpec | ec2-tags-management/ec2-tags-apply.py:19-51 | A line that raises changes no tag. A line that goes through leaves its instance with exactly the desired tags and every other instance as it was. No instance appears or disappears, and keys stay unique. |
| TagsApply.RowFaultExplains | ec2-tags-management/ec2-tags-apply.py:19-39 | An error raised by a data line is traced to that line: it has no cells, the header lacks a tag name, or the provider does not know the line's instance. It is never StopIteration. |
| TagsApply.Applied | ec2-tags-management/ec2-tags-apply.py:19-51 | The provider's tags after each data line has been applied in turn: `RowEffect` folded over the lines. |
| TagsApply.AppliedKeeps | ec2-tags-management/ec2-tags-apply.py:19-51 | Applying lines neither adds nor removes an instance, and no instance ever carries two tags with one key. |
| TagsApply.AppliedSettles | ec2-tags-management/ec2-tags-apply.py:19-51 | When no line raises, every instance named in some line ends with exactly the tags of the last line naming it. Every other instance keeps its tags. |
| TagsApply.ReadCsvAndApplyTags | ec2-tags-management/ec2-tags-apply.py:12-51 | A file without lines raises StopIteration. A header-only file changes nothing, even with a bad header. The run completes exactly when the file has a header and no data line raises, so a line that raises always stops the run. A complete run leaves every instance named in some line with exactly the tags of the last line naming it, and every other instance untouched. A raised error comes from the first line that raises, after the lines before it were applied, and is traced to that line. |

## Left out

- Provider and file I/O are not modelled:
  - boto3 sessions, clients and resources, and `instances.all()` pagination;
  - credentials, `argparse`, `logging` and `print`;
  - the hard-coded path and region;
  - opening and reading or writing files, and CSV quoting.

  The instance list and the file contents are parameters. The provider's tag state is the `Ec2` class. A csv writer prints None as an empty cell; the model keeps None.
- QueryInput.IsIPv4 approximates `ipaddress.IPv4Address`. It accepts exactly four dot-separated fields, each of one to three ASCII digits, without a leading zero, and at most 255. The library's own parser is not modelled.
- QueryInput.Strip treats only ASCII whitespace and the separators 0x1C–0x1F as whitespace. `str.strip()` also strips other Unicode whitespace.
- The iteration order of `row.items()` is not modelled. The column loop takes the keys of each record in an arbitrary order. `FleetSearch.ExportHeaderUnique` shows that the header does not depend on that order.
- `list.sort()` and `sorted(...)` are modelled as functions on values: an insertion sort and a stable insertion by state. Sorting in place is not modelled.
- In the source, two tables share the same record dicts. Records are never changed after they are added, so the model holds them as values.
- The state of an instance is a plain string, the value of `instance.state["Name"]`. The unused accumulators `private_ipv4_list` and `public_ipv4_list` are not modelled.
- FleetSearch.Resolve requires every fleet record to carry `Instance_id` and `Private_ip`. Records built from the provider's list always do (`FleetSearch.RecordsIndexable`). A KeyError from a search table is therefore not modelled.
- Line 28 of `ec2-tags-apply.py` repeats the `newtag` lookup of line 27 with the same result. It is modelled once.
- The provider's `create_tags` with an empty tag list is modelled as a write that changes nothing. The real API may reject an empty list; that error is not modelled.
- Provider failures other than an unknown instance id are not modelled: throttling, authorization and network errors.
- TagsApply.ReadCsvAndApplyTags does not state the order of requests across lines. The order within one line is stated by `TagsApply.Reconcile`.

## Findings

| source | as written | input that shows it | evidently intended | confidence | as-written member | corrected member |
|---|---|---|---|---|---|---|
| ec2-tags-management/search-instances.py:124 | The hostname loop iterates `instance.tags` directly. | An instance listed with no tags, for which `instance.tags` is None. The loop raises TypeError and the whole search stops. | Treat None as no tags, as `dict_format` does at lines 84-85. The hostname is then None and the record gets no tag fields. | medium; not executed | FleetSearch.UntaggedInstanceAborts | FleetSearch.FindHostName |
