# Wind-farm siting pipeline: a Dafny model

The repository sorts land-use nodes of Polish regions into "available" and
"restricting" nodes. It then raises the areas of the available land uses
into a power estimate. This project models, in Dafny, the parts of it that
carry logic:

- **region_data_generator.py**:
  - Overpass elements are split into raw nodes and ways.
  - Each node takes the way id and land use of the last way that holds it.
  - Residential and nature-reserve nodes are collected as restricting.
  - Every other node gets its distance to the nearest restricting node. A
    node within 500 m is dropped.
  - The neighbour-list line parser.
- **main_to_send.py**, the earlier revision:
  - element projection;
  - the join of ways onto nodes;
  - the order-preserving filter;
  - the 1.56 km filter tag.
- **process_nodes.py**, the MongoDB revision:
  - the way query;
  - the closest-restriction scan, with its early exit and the
    `restricting_node_id`/`is_buildeable` fields;
  - insert-if-absent and the loop that drives both.
- **get_power_areas.py**: the area gate of a way, its unit conversion, the
  power coefficient, and the region totals written onto the region document.
- **create_geo_array_nodes.py**: `lon`/`lat` are moved into a `coordinates`
  pair region by region, and only non-empty regions are sent.
- **dash_data_processing.py**: the voivodeship file parser.
- **db_connect.py**: the event-driven OSM restaurant extractor and its
  storing callback.

How things are represented:

- Python dicts and MongoDB documents are `Record = map<string, Value>`.
- Collections are sequences of records in natural order, or a class
  `Collection` whose methods change its `documents` in place.
- Lists of node dicts that the source mutates in place are `array<Record>`.
- Exceptions the code can raise are `Result`/`Option` values with a
  `Failure`:
  - `KeyError` is `MissingKey`;
  - `IndexError` is `IndexOutOfRange`;
  - reading an unbound local is `Unbound`;
  - indexing `None` after a failed lookup is `NotFound`;
  - `QhullError` is `DegenerateHull`;
  - a `float()` `ValueError` is `NotANumber`.
- The haversine distance, the geodesic polygon area, the convex-hull test
  and `float` are parameters. They are uninterpreted functions, because
  they are floating-point or foreign code.

Shared modules:

- `Values`: the value types.
- `Sequences`: an order-preserving `Filter` with its lemmas.
- `Scan`: the early-exit minimum scans used by three files.
- `Text`: Python's `rstrip`, `strip`, `in`, `replace`, `rsplit` and `join`.
- `Osm`: way membership.
- `Store`: `find`, `find_one`, `update_one`, `insert_one` and `insert_many`.

Behaviour of the code worth knowing, which the model keeps:

- get_power_areas.py: `ConvexHull` raises on degenerate points, and the
  exception ends the run. The model returns `Err(DegenerateHull)`.
- get_power_areas.py: the hull is computed and then discarded. The
  geodesic area is taken over all points in their given order.
- process_nodes.py: `restricting_node_id` is updated only when a strictly
  smaller distance replaces a non-zero running minimum. When the first
  restricting node is the nearest, the stored id is therefore `0`.
- main_to_send.py: `look_for_nearest_node` returns the distance to the last
  restricting node examined, not the minimum. A concrete lemma exhibits
  this.

## Model

| member | source | states |
|---|---|---|
| `Sequences.FilterMultiplicity` | main_to_send.py:266-268 | the filter keeps every occurrence of an element that satisfies the predicate and drops every other element |
| `Sequences.FilterConcat` | main_to_send.py:264-269 | filtering distributes over concatenation, so relative order is kept |
| `Scan.FirstBelow` | region_data_generator.py:249-251 | the index where an early-exit scan stops: the first distance strictly below the threshold, every earlier one at or above it |
| `Scan.ArgMin` | process_nodes.py:69-71 | index of a smallest element, and the first one among equals (later replacements need a strictly smaller value) |
| `Scan.ClosestOrZero` | region_data_generator.py:241-253 | the running distance is 0 exactly when there is no distance or one is below the threshold; otherwise it is the minimum of the distances, itself at or above the threshold |
| `Scan.FirstBelowCons` | process_nodes.py:59-68 | a first distance at or above the threshold pushes the stopping index of the rest back by one |
| `Text.RStrip` | dash_data_processing.py:19 | `rstrip` removes exactly the trailing characters of the set: the result is a prefix, everything cut is in the set, and the new last character is not |
| `Text.LStrip` | dash_data_processing.py:20 | `lstrip` removes exactly the leading characters of the set: the result is a suffix and does not start with one |
| `Text.Strip` | dash_data_processing.py:20 | the result of `strip()` is a piece of the input with only whitespace cut on either side, and neither of its ends is whitespace |
| `Text.LastIndexOf` | dash_data_processing.py:19 | the rightmost occurrence of the separator, and none when it does not occur |
| `Text.RSplit` | dash_data_processing.py:19 | `rsplit` yields at least one part, joining the parts with the separator gives back the input, and no part holds the separator |
| `Text.RSplitJoinExact` | region_data_generator.py:133 | `rsplit("; ")` undoes `"; ".join` when no name holds a `;` |
| `Text.RSplitJoin` | region_data_generator.py:133-135 | the same with trailing text after the last name, which stays attached to that name |
| `Text.ReplacePrefix` | region_data_generator.py:133 | `replace` of a leading marker that does not occur again removes just the marker |
| `Text.StripSemicolons` | region_data_generator.py:135 | each element loses exactly its trailing run of `;`: the result is a prefix that does not end on `;`, and length and order are kept |
| `Text.StripNames` | dash_data_processing.py:20 | names free of `;`, the last followed by one `;`, strip back to the names |
| `Osm.LastWayContaining` | region_data_generator.py:220-224 | the last way whose node list holds the id, no later way holding it, or none when no way does |
| `Store.FindAll` | create_geo_array_nodes.py:35-36 | a `find({key: v})` cursor yields exactly the matching documents, and is empty exactly when none matches |
| `Store.FirstMatch` | process_nodes.py:53-54 | `next(find(...), None)` gives the first matching document, and none exactly when nothing matches |
| `Store.UpdateFirst` | get_power_areas.py:68-70 | `update_one` without upsert sets the field on the first matching document only and inserts nothing |
| `Store.Collection.InsertOne` | process_nodes.py:86 | the document is appended and nothing else changes |
| `Store.Collection.InsertMany` | create_geo_array_nodes.py:48-50 | the documents are appended in order |
| `Store.Collection.UpdateOne` | get_power_areas.py:68-70 | the new documents are `UpdateFirst` of the old ones |
| `RegionDataGenerator.SplitElements` | region_data_generator.py:198-205 | the loop yields exactly `NodesOf` and `WaysOf` of the elements |
| `RegionDataGenerator.SplitShapes` | region_data_generator.py:199-205 | every raw node has just `id`, `lat`, `lon` and every way just `id`, `nodes`, `landuse`, the land use taken from a way element's `tags` |
| `RegionDataGenerator.SplitConcat` | region_data_generator.py:198-205 | the split distributes over concatenation, so the input order of nodes and of ways is kept |
| `RegionDataGenerator.Joined` | region_data_generator.py:221-224 | the join keeps every other field of the node and adds only `way_id` and `landuse` |
| `RegionDataGenerator.SetWay` | region_data_generator.py:223-224 | the node takes the way's id and land use, and keeps everything else |
| `RegionDataGenerator.SetWayTwice` | region_data_generator.py:221-224 | a later way overwrites all that an earlier one set |
| `RegionDataGenerator.JoinedFromLastWay` | region_data_generator.py:220-224 | a node held by several ways ends with the `way_id` and `landuse` of the last of them |
| `RegionDataGenerator.JoinedAlone` | region_data_generator.py:220-224 | a node held by no way is left unchanged |
| `RegionDataGenerator.RestrictingWaysStep` | region_data_generator.py:226-227 | each further way adds one restricting entry exactly when it holds the node and is residential or a nature reserve |
| `RegionDataGenerator.RestrictingMultiplicity` | region_data_generator.py:216-227 | a node occurs in `restricting_nodes` once per restricting way that holds it, so possibly more than once |
| `RegionDataGenerator.CandidateMember` | region_data_generator.py:229 | the candidates are exactly the nodes whose final land use is buildable, each once |
| `RegionDataGenerator.KeptIff` | region_data_generator.py:240-257 | a candidate survives exactly when there is a restricting node and every one is at least 0.5 km away; an empty restricting list drops every node |
| `RegionDataGenerator.KeptCarriesNearest` | region_data_generator.py:246-255 | a surviving node carries the minimum distance over all restricting nodes |
| `RegionDataGenerator.ClosestForPositions` | region_data_generator.py:241-253 | the distance written depends only on positions, which the in-place updates never change |
| `RegionDataGenerator.ClosestDistance` | region_data_generator.py:241-253 | the inner loop computes `ClosestFor` and stops right after the first node closer than 0.5 km |
| `RegionDataGenerator.AddClosestDistanceRestriction` | region_data_generator.py:233-257 | every region node gets the field in place, and the result is the order-preserving subsequence with a non-zero value |
| `RegionDataGenerator.JoinAll` | region_data_generator.py:220-227 | the nested loops never move a node's position |
| `RegionDataGenerator.JoinNodes` | region_data_generator.py:220-227 | the nested loops leave the array as `JoinAll` of its old contents, and list each node once per restricting way that holds it |
| `RegionDataGenerator.JoinNode` | region_data_generator.py:221-227 | the inner loop updates only node `i` to its join and appends the node once per restricting way |
| `RegionDataGenerator.RegionNodes` | region_data_generator.py:211-230 | the only failure is the `landuse` KeyError of line 229; indices stay in range |
| `RegionDataGenerator.RegionNodesFails` | region_data_generator.py:229 | the KeyError happens exactly when some node lies in no way |
| `RegionDataGenerator.AvailableIff` | region_data_generator.py:211-230 | a node is available exactly when its land use is buildable, there is a restricting node, and all are at least 0.5 km away |
| `RegionDataGenerator.KeptWithin` | region_data_generator.py:257 | the survivors are region nodes |
| `RegionDataGenerator.GetRegionNodes` | region_data_generator.py:211-230 | the array ends as the final nodes `RegionNodes` describes, with the available and restricting lists as its indices; on the KeyError the join has already happened |
| `RegionDataGenerator.GetRegionData` | region_data_generator.py:186-208 | the method computes `RegionData` |
| `RegionDataGenerator.LastMatching` | region_data_generator.py:131-132 | the last line holding the marker, or none when no line does |
| `RegionDataGenerator.GetNeighbourData` | region_data_generator.py:125-137 | the loop computes `NeighbourData`: the list parsed from the last line holding the marker, or the unbound-name error when no line holds it |
| `RegionDataGenerator.NeighbourDataLastLine` | region_data_generator.py:130-137 | the result is parsed from the last line holding the marker |
| `RegionDataGenerator.NeighbourListRoundTrip` | region_data_generator.py:133-135 | a line `region - a; b; c;` parses back to exactly the names |
| `MainToSend.GetListData` | main_to_send.py:117-138 | the loop computes `ListData`, and an unsupported key yields nothing |
| `MainToSend.ListDataConcat` | main_to_send.py:132-134 | listing distributes over concatenation, so order is kept |
| `MainToSend.ListDataMember` | main_to_send.py:129-136 | a record is listed exactly when it is the projection of an element of the requested type |
| `MainToSend.WayDataFromLastWay` | main_to_send.py:171-178 | the result holds the id and `tags.landuse` of the last way that holds the node |
| `MainToSend.WayDataEmpty` | main_to_send.py:171-178 | the result is empty exactly when no way holds the node |
| `MainToSend.SearchWays` | main_to_send.py:160-178 | the loop computes `WayData` |
| `MainToSend.AppendWayData` | main_to_send.py:141-157 | each node dict is updated in place with its way data |
| `MainToSend.AppendedKeepsFields` | main_to_send.py:155 | the update keeps every other field, and leaves a node that no way holds unchanged |
| `MainToSend.GetFilteredNodes` | main_to_send.py:256-270 | the result is the order-preserving filter on the key's value |
| `MainToSend.FilteredNodesIff` | main_to_send.py:266-268 | a node is kept exactly when its value is listed; filtering distributes over concatenation |
| `MainToSend.LookForNearestNode` | main_to_send.py:272-286 | the loop computes `NearestVerdict` of the distances |
| `MainToSend.NearestVerdictTag` | main_to_send.py:276-286 | an empty list leaves `result` unbound; otherwise the tag is 0 or 1, and it is 0 exactly when some restriction is under 1.56 km, the distance then being that of the first such one |
| `MainToSend.NearestVerdictNotMinimum` | main_to_send.py:284-286 | with distances 2.0 and 3.0 the returned distance is 3.0, not the minimum |
| `MainToSend.Restrictions` | main_to_send.py:244 | the restrictions are exactly the residential and nature-reserve nodes |
| `MainToSend.TaggedFails` | main_to_send.py:247-252 | tagging one node fails exactly for a non-restricting node when there are no restrictions, and then with the unbound `result` |
| `MainToSend.UsageTagsOk` | main_to_send.py:246-254 | with every land use present and some restriction, every node is tagged in place, in order |
| `MainToSend.TagNode` | main_to_send.py:247-252 | the method computes `Tagged` |
| `MainToSend.TagNodes` | main_to_send.py:246-252 | tagging every node in place leaves the array holding `UsageTags` of the old nodes, or unchanged with its error |
| `MainToSend.AddUsageTag` | main_to_send.py:235-254 | the result is `UsageTags` of the old nodes; the array holds it on success and is unchanged on failure |
| `MainToSend.UsageTagGroups` | main_to_send.py:247-252 | restricting nodes get tag 0 and no distance; the others get the nearest-node verdict |
| `MainToSend.UsageTagFails` | main_to_send.py:244-252 | the call fails exactly when a node lacks `landuse`, or there are nodes and none of them is restricting |
| `ProcessNodes.ConcatNodes` | process_nodes.py:32-36 | the concatenation fails exactly when some document lacks `nodes`, with that KeyError |
| `ProcessNodes.NodeListsFiltered` | process_nodes.py:30 | the query's filter keeps node lists well formed |
| `ProcessNodes.QueryGetNodesFromWay` | process_nodes.py:29-38 | the loop, with its empty-list first case, computes `WayNodes` |
| `ProcessNodes.ConcatNodesPrefixErr` | process_nodes.py:32-36 | a KeyError on a prefix is the result for the whole cursor |
| `ProcessNodes.ConcatNodesAppend` | process_nodes.py:32-36 | the node lists are joined in cursor order |
| `ProcessNodes.ConcatNodesMember` | process_nodes.py:32-36 | an id is in the result exactly when some document lists it |
| `ProcessNodes.WayNodesMember` | process_nodes.py:29-38 | an id is returned exactly when some way with one of the land uses lists it |
| `ProcessNodes.WayNodesFails` | process_nodes.py:29-38 | the query fails exactly when some matching way has no `nodes` |
| `ProcessNodes.LookUp` | process_nodes.py:53-54 | the lookup is the first document with the id, minus `_id` and `region_id`, or none exactly when no document has the id |
| `ProcessNodes.LookUpFacts` | process_nodes.py:60 | a node found has a position and the id asked for |
| `ProcessNodes.Probe` | process_nodes.py:59-71 | the scan measures no more distances than there are ids |
| `ProcessNodes.ProbeShape` | process_nodes.py:59-71 | a scan that ends early ends on a distance under 0.5 km, and every earlier one passed |
| `ProcessNodes.WithVerdictFields` | process_nodes.py:72-77 | the three fields written onto the node, and nothing else changed |
| `ProcessNodes.ProbeStep` | process_nodes.py:59-71 | a passing id continues the scan with the rest of the list |
| `ProcessNodes.VerdictComplete` | process_nodes.py:63-71 | the running values after a scan with no close restriction |
| `ProcessNodes.VerdictStopped` | process_nodes.py:66-68 | the running values after the break |
| `ProcessNodes.ProbeEndsAt` | process_nodes.py:60-68 | an id that is not found ends the scan with an error, and a close one ends it with its distance |
| `ProcessNodes.Measure` | process_nodes.py:60-61 | the lookup succeeds exactly when the id is found, and then gives its distance |
| `ProcessNodes.RunningStep` | process_nodes.py:63-71 | one passing distance updates the running minimum and its id as `Running` requires |
| `ProcessNodes.ScanRestrictions` | process_nodes.py:56-71 | the loop fails exactly as `Probe` does; otherwise it ends with `ClosestOrZero` and `RestrictingId` of the distances it measured |
| `ProcessNodes.FindClosestRestriction` | process_nodes.py:51-79 | the method computes `ClosestRestriction` |
| `ProcessNodes.ProbeResolved` | process_nodes.py:59-71 | when every id is found, the scan measures the distances up to and including the first one under 0.5 km, or all of them |
| `ProcessNodes.AllDistsCons` | process_nodes.py:59-61 | the distances of a list are the first one followed by those of the rest |
| `ProcessNodes.ProbeFails` | process_nodes.py:60-61 | the scan fails exactly at the first id it reaches that is not found |
| `ProcessNodes.ClosestRestrictionFound` | process_nodes.py:53-61 | a successful call found the node and scanned without error |
| `ProcessNodes.ClosestRestrictionFields` | process_nodes.py:72-79 | the output has the node's keys plus the three fields, with the other fields and the id unchanged and no `_id` or `region_id` |
| `ProcessNodes.ClosestRestrictionBuildable` | process_nodes.py:74-77 | `is_buildeable` is true exactly when there is some restricting id and every one passes |
| `ProcessNodes.Walk` | process_nodes.py:59-71 | a complete scan with no close restriction passed every id |
| `ProcessNodes.ClosestRestrictionStops` | process_nodes.py:66-68 | a restricting node under 0.5 km stores distance 0 and not buildable |
| `ProcessNodes.ClosestRestrictionMinimum` | process_nodes.py:63-71 | otherwise the stored distance is the minimum over all, the node is buildable, and the id is that of the first minimum, or 0 when it is the first node |
| `ProcessNodes.ClosestRestrictionEmpty` | process_nodes.py:56-58 | with no restricting ids, the distance and the id are 0 and the node is not buildable |
| `ProcessNodes.ClosestRestrictionFails` | process_nodes.py:53-61 | an unknown node id, or an unknown restricting id reached by the scan, is the failure |
| `ProcessNodes.InsertIfAbsent` | process_nodes.py:81-88 | the old documents are a prefix, the id is then present, nothing changes exactly when it already was, and otherwise exactly the given document is appended |
| `ProcessNodes.InsertIdempotent` | process_nodes.py:81-88 | a repeated insert changes nothing |
| `ProcessNodes.InsertKeepsIdsUnique` | process_nodes.py:83-86 | the insert never creates a second document with the same id |
| `ProcessNodes.InsertToCollection` | process_nodes.py:81-88 | the collection becomes `InsertIfAbsent` of its old documents |
| `ProcessNodes.Verdicts` | process_nodes.py:41-44 | one outcome per allowable id, in order, each carrying its id |
| `ProcessNodes.IterateNodesList` | process_nodes.py:40-48 | the loop's documents and failure are `Iterated` of the old collection |
| `ProcessNodes.InsertionsStop` | process_nodes.py:41-45 | after an exception the later outcomes are never used |
| `ProcessNodes.InsertionsGrow` | process_nodes.py:41-45 | old documents stay in place, and at most one is added per id |
| `ProcessNodes.InsertionsCover` | process_nodes.py:41-45 | without an exception, every record's id has a document |
| `ProcessNodes.InsertionsUnique` | process_nodes.py:41-45 | unique ids stay unique |
| `ProcessNodes.InsertionsFailure` | process_nodes.py:41-45 | the run ends with the failure of the first failing outcome, and has none exactly when all succeed |
| `ProcessNodes.IteratedProperties` | process_nodes.py:40-48 | together, for the real loop: old documents kept, unique ids stay unique, every allowable id stored when nothing fails |
| `ProcessNodes.GetNodesFromWay` | process_nodes.py:20-27 | the two queries feed the loop; a query error stops before any insert |
| `GetPowerAreas.CalculateWayArea` | get_power_areas.py:80-104 | at most two buildable nodes give (0, 0); otherwise the hull error exactly when the hull refuses the points; area non-negative; power = area × 19.8 |
| `GetPowerAreas.WayAreaOverAllPoints` | get_power_areas.py:90-100 | the area is the absolute polygon area over all points in order, in km²: the hull only decides whether the call raises |
| `GetPowerAreas.WayAreaGate` | get_power_areas.py:83 | a way with few buildable nodes contributes nothing, whatever its coordinates |
| `GetPowerAreas.TotalsProportional` | get_power_areas.py:58-63 | the totals are non-negative, and the power total is the area total × 19.8 |
| `GetPowerAreas.TotalsAppend` | get_power_areas.py:58-63 | the totals of two runs of ways add up |
| `GetPowerAreas.TotalsFail` | get_power_areas.py:59-61 | the totals fail exactly when some way's area call raises |
| `GetPowerAreas.SumWays` | get_power_areas.py:58-63 | the loop computes `Totals` |
| `GetPowerAreas.RemainingFail` | get_power_areas.py:59-61 | a failing prefix makes the whole sum fail with the same error |
| `GetPowerAreas.GetBuildableNodes` | get_power_areas.py:53-70 | on success the totals go onto the region document via `update_one`; a hull error writes nothing |
| `CreateGeoArrayNodes.Reshape` | create_geo_array_nodes.py:39-41 | `coordinates` becomes `[lon, lat]`, `lon` and `lat` are gone, every other field is kept |
| `CreateGeoArrayNodes.RestoreReshape` | create_geo_array_nodes.py:39-41 | nothing is lost: moving the pair back restores the record |
| `CreateGeoArrayNodes.ReshapeAll` | create_geo_array_nodes.py:38-42 | the reshaping fails exactly when some element lacks a position, and otherwise keeps the length |
| `CreateGeoArrayNodes.ReshapeAllPointwise` | create_geo_array_nodes.py:38-42 | the k-th output is the k-th element reshaped |
| `CreateGeoArrayNodes.ReshapeAllFailure` | create_geo_array_nodes.py:39 | the KeyError names the missing key of the first element without a position, `lon` first |
| `CreateGeoArrayNodes.ReshapeAllStep` | create_geo_array_nodes.py:38-42 | one more element is appended reshaped, or its KeyError becomes the result |
| `CreateGeoArrayNodes.RegionOf` | create_geo_array_nodes.py:37-46 | the sentinel comes exactly when there are no documents, and otherwise a non-empty list of the same length |
| `CreateGeoArrayNodes.IterateOverRegion` | create_geo_array_nodes.py:33-46 | the loop computes `RegionOf` of the region's documents |
| `CreateGeoArrayNodes.Connect` | create_geo_array_nodes.py:23-28 | `testing_col` gains exactly `Sent(...)`, and the sentinel sends nothing |
| `CreateGeoArrayNodes.SendRegion` | create_geo_array_nodes.py:26-28 | the region's documents are fetched and reshaped, and `testing_col` gains them unless the region has none |
| `CreateGeoArrayNodes.ShippedStops` | create_geo_array_nodes.py:23-28 | an exception ends the region loop: later regions send nothing |
| `CreateGeoArrayNodes.ConnectStep` | create_geo_array_nodes.py:23-28 | a failing region ends the loop with its exception, and a successful one appends what it sends |
| `CreateGeoArrayNodes.SentMember` | create_geo_array_nodes.py:23-42 | when nothing fails, `testing_col` receives exactly the reshaped nodes of regions 6 to 380 |
| `DashDataProcessing.ParseLine` | dash_data_processing.py:19-20 | the index error comes exactly when the trimmed line has no `" - "`; otherwise the name is the stripped text in front of a `" - "`, that text holding none, and there is at least one region, none holding `"; "` or ending in `;` |
| `DashDataProcessing.SplitCount` | dash_data_processing.py:19-20 | `rsplit` gives a second part exactly when the separator occurs |
| `DashDataProcessing.ReadVoivodeshipData` | dash_data_processing.py:15-22 | the loop computes `Voivodeships` |
| `DashDataProcessing.EntriesStep` | dash_data_processing.py:20 | one more line writes its pair into the dictionary, or its error is the result |
| `DashDataProcessing.EntriesFail` | dash_data_processing.py:18-20 | reading fails exactly when some line fails, with the error of the first failing line |
| `DashDataProcessing.EntriesKeys` | dash_data_processing.py:18-20 | the keys are exactly the names that the lines carry |
| `DashDataProcessing.EntriesLastWins` | dash_data_processing.py:20 | a name holds the regions of the last line that carries it |
| `DashDataProcessing.VoivodeshipsFail` | dash_data_processing.py:19-20 | reading fails exactly when some trimmed line has no `" - "`, and then with the index error |
| `DashDataProcessing.VoivodeshipsKeys` | dash_data_processing.py:18-20 | the names in the dictionary are exactly those of the lines |
| `DashDataProcessing.VoivodeshipsLastWins` | dash_data_processing.py:20 | a later line with the same name overwrites the earlier entry |
| `DashDataProcessing.ParseLineTrailing` | dash_data_processing.py:19 | trailing spaces and line ends change nothing |
| `DashDataProcessing.DashSplitJoin` | dash_data_processing.py:19 | `rsplit(" - ")` undoes `" - ".join` when no part holds `" - "` and no part after the first starts with `"- "`; hyphenated names such as `kujawsko-pomorskie` are allowed |
| `DashDataProcessing.ParseLineRoundTrip` | dash_data_processing.py:19-20 | a line `name - a; b; c;` reads back as the name and the regions, hyphenated names and regions included, and segments after a second `" - "` are ignored |
| `DbConnect.RestaurantExtractor.constructor` | db_connect.py:17-19 | a new reader has no record and has delivered nothing |
| `DbConnect.RestaurantExtractor.Start` | db_connect.py:21-46 | the slot and the exception are `Started` of the old slot; nothing is delivered; records stay well formed |
| `DbConnect.RestaurantExtractor.End` | db_connect.py:48-52 | the slot becomes `Ended` of the old one, and the callback receives exactly the record `Ended` hands over |
| `DbConnect.RestaurantExtractor.Close` | db_connect.py:54-55 | back to the initial slot, with the same callback |
| `DbConnect.StartedKeepsSlotOk` | db_connect.py:21-46 | every start or tag event keeps the record under construction well formed |
| `DbConnect.StartNodeFresh` | db_connect.py:23-28 | `start("node")` replaces any record with one holding just `lat` and `lon` |
| `DbConnect.TagIgnoredWhenNotLive` | db_connect.py:30 | tag events are ignored while the slot is `None`, `False` or an empty dict |
| `DbConnect.HighwayDiscards` | db_connect.py:32-33 | a `highway` key discards the record |
| `DbConnect.AmenityFilter` | db_connect.py:35-39 | a restaurant or fast_food amenity is recorded; any other amenity marks the slot `False` |
| `DbConnect.NameCuisineCopied` | db_connect.py:42-46 | `name` and `cuisine` are copied onto a live record and nothing else changes |
| `DbConnect.OtherTagsIgnored` | db_connect.py:30-46 | other keys change nothing; a missing `k`, or a missing `v` on a relevant key, raises and leaves the record |
| `DbConnect.OtherStartsIgnored` | db_connect.py:23-30 | start tags other than `node` and `tag` change nothing |
| `DbConnect.EndDelivers` | db_connect.py:48-52 | `end("node")` hands the record over exactly when it is live and has `amenity`, then clears the slot; other end tags change nothing |
| `DbConnect.EndedIsRestaurant` | db_connect.py:50-51 | every record handed over is a restaurant or fast-food node with a latitude |
| `DbConnect.Places.constructor` | db_connect.py:73 | the counter starts at 0 |
| `DbConnect.Places.SaveToDb` | db_connect.py:74-87 | a record without `name` is skipped; any other is appended and counted once |

## Left out

- HTTP acquisition (`get_raw_region_data`, `get_map_data`) is network I/O and not modelled. Overpass output is taken as an input sequence of elements.
- File I/O is not modelled: reading and writing JSON files, the neighbour and voivodeship files (given as sequences of lines), `read_json_file`, load_to_db.py, and the `utf-8-sig` BOM handling.
- Database connections, `server_info` checks and logging are not modelled. Collections are passed in as values or `Collection` objects.
- The aggregation pipeline of get_power_areas.py:14-53 is left out, and its groups are an input. Its `$match` also hard-codes `region_id: 1`, whatever region id is passed.
- The `cur != None` test of get_power_areas.py:55 is always true and is not modelled as a branch.
- Floating point is not modelled: the trigonometry of the haversine distance, pyproj's geodesic area, scipy's `ConvexHull` and `float()` parsing are uninterpreted parameters, and reals are exact. Rounding is not modelled.
- `GetPowerAreas.CalculateWayArea`: the integer `0, 0` of line 104, and the integer start of the totals at line 58, are modelled as the real `0.0`. A region whose ways all contribute nothing is therefore stored as `0.0` rather than `0`.
- `ProcessNodes.InsertIfAbsent`: `insert_one` also adds a driver-generated `_id` to the inserted dict. That field is not modelled.
- `ProcessNodes.LanduseIn`: MongoDB's `$in` matches array-valued fields element-wise. Only scalar `landuse` values are modelled.
- Dict insertion order is not modelled, because records are maps.
- Timing (`time.sleep`, `time.time`) and `print`/logging output are not modelled.
- CLI handling and ArangoDB setup in db_connect.py (`get_collection`, `process_osm`, `query1`, `evaluate_args`, `print_usage`) are not modelled. The extractor's events are the method calls.
- `DbConnect.RestaurantExtractor`: the callback is modelled as the log of the records it receives. The `save_to_db` callback is modelled on its own by `DbConnect.Places.SaveToDb`.
- dashboard_results.py and `get_data_voivodeship` (pandas) are not modelled.
- MongoDB plumbing that no core function drives is not modelled: temporary.py, db_operations.py, add_ways_to_node.py and create_regions_json.py.
- Structural KeyErrors are excluded by preconditions rather than modelled as errors: `RegionDataGenerator.WellFormedElement` (an element without `type`, a node without `id`/`lat`/`lon`, a way without `id`, `nodes` or a `landuse` tag), `ProcessNodes.Located` (a node document without `lat`/`lon`), `ProcessNodes.NodeListsAreLists` (a `nodes` field that is not a list), `MainToSend.Searchable` (a way without `nodes`, or a containing way without `id` or `tags.landuse`) `GetPowerAreas.WellFormedGroup` (a group without `buildable_nodes` or `node_coordinates`, or a point that is not a `[lon, lat]` pair), and four preconditions of main_to_send.py: `MainToSend.GetListData` requires `type` on every element (line 133), `MainToSend.AppendWayData` requires `id` on every node (line 154), `MainToSend.GetFilteredNodes` requires the filter key on every node (line 267; the missing `landuse` is modelled as `MissingKey` one level up, in `MainToSend.AddUsageTag`), and `MainToSend.AddUsageTag` and `MainToSend.TagNodes` require `lat`/`lon` on every node (line 294). The Overpass query of region_data_generator.py:151-160 asks only for elements with a `landuse` tag and their nodes, and the loaders store exactly these fields, so the data always has them. Apart from these, the only KeyError of `get_region_nodes` is the one of line 229.
- `Store.FindAll`, `Store.FirstMatch`: a query `{key: v}` is modelled as exact equality of values. MongoDB also matches an integer against an equal double, and an array field that contains `v`; neither is modelled.
- `CreateGeoArrayNodes.Connect`: `insert_many` is modelled as always appending. The reshaped documents keep their `_id`, so the real call raises `BulkWriteError` when `testing_col` already holds one of them, for example on a second run. That error is not modelled.
- `ParseLine`: its contract fixes the error and the shape of the regions. It ties the name to a `" - "` whose preceding text holds none, but when occurrences of `" - "` overlap (as in `a - - b`) more than one such occurrence exists, and the contract then admits each of their names (`a` and `a -`), while `rsplit` picks the one its right-to-left splitting reaches (`a -`). Which regions a line yields is stated by `DashDataProcessing.ParseLineRoundTrip` for lines written `name - a; b; c;`, not for arbitrary text.
