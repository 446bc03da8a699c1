# A verified model of the device-discovery agent

The agent looks for power devices on a network. Clients send it requests over a message bus
(`protocols`, `mibs`, `assets`); a dispatcher hands each request to a worker, the worker asks the
device over SNMP, over its XML pages or through a NUT driver process, and sends one reply. This
project models the parts of it that hold state, parse or loop, and states and proves what they keep.
It is written for Dafny 4.11; `dafny verify dfyconfig.toml` verifies it.

## The parts

| files | what they model | main results |
|---|---|---|
| `NeonTree`, `NeonSpine`, `NeonDocument`, `NeonParser`, `NeonBuilder` | the XML event parser: nodes held by value in growable vectors, raw parent pointers, a cursor moved by callbacks | every prefix of a properly nested event sequence runs without following a bad pointer; parsing appends exactly the document at any cursor position; which parent pointers dangle, exactly |
| `NeonReader`, `NeonSchemas`, `NeonVisitor` | the schema-driven pass that fills a structure from the tree | the result for every document, complete or cut off, every schema and vector implementation; which schemas are always read as declared, exactly |
| `Text`, `Order`, `OrderedMap`, `NutOutput` | lines, `std::map`, the line expression | first line wins; printing and parsing is the identity |
| `Mapper` | the key mapping with indexed templates, the comment stripper | greedy matching is "the last inner segment of digits"; changing the index commutes with mapping |
| `AssetSplit`, `AssetSpec`, `Assets` | the job that makes assets of a driver's output | the daisy-chain split is a partition; what a client reads under every key of an asset |
| `SnmpWalk`, `Mibs` | the GETNEXT walk and the reader of MIB names | when the loop ends, for every peer and exactly for every agent with a finite table; the walk is the ascending enumeration of the table; the session is opened at most once |
| `Messages`, `MessageBus`, `Tasks`, `Discovery` | messages, send and reply, one job, and the whole system as interleaved steps | every request is in exactly one place; one reply each, to the right client; what a client takes was made from its own request, and is faithful to the job's end |
| `NutProcess` | the driver command built by setters | options and environment agree after every sequence of setters, and hold what the last setter said; when two versions are given, exactly |

The form follows the source. Objects that the source changes in place are classes (`Parser`, `Job`,
`Asset`, `MibsReader`, `Message`, `Bus`, `Response`, `Dispatcher`, `Process`) whose methods are proved
against functions on values, loops are loops, and the properties are lemmas about those functions.

## What is assumed

- XML: the library reports start, value and end events; text arrives as value events. What the parser
  does with events that are not properly nested is modelled too (the assertion in `endEl` fails).
- Memory: a vector that grows either moves its elements or not; the choice is an arbitrary function of
  its size (`Growth`), the same for all vectors. An address that was given up is not handed out again,
  so following a pointer to a moved node is a fault, written `None`.
- `fty::split` matches the whole line and gives the groups, or two empty texts, so a line that does not
  match stores the empty key. `.` of a regular expression matches neither line feeds nor carriage
  returns. `pack`'s `find` gives the first match.
- `fty::convert<int>` and `generateUUID` are functions the model knows nothing about (`Site`).
- The outcomes of opening and reading a session, of each request of a walk, of the wallet, of looking
  for an executable, and of handing a message to the bus are parameters.
- Protocol: jobs throw nothing but `job::Error`. What a job does may differ each time it is run; the
  system has one unknown job for each run and subject (`Jobs`). Where a statement needs the correlation
  ids of the requests in flight to be distinct, it says so (`CarefullyReachable`).

## What was found

- A node's parent pointer stays right only while the node it points to is not moved by a younger
  sibling (server/src/jobs/impl/neon.cpp:205-214; `NeonParser.ParentPointers`, exactly). The walk up the
  open elements is never concerned. Lists are read through such a pointer
  (server/src/jobs/impl/neon.cpp:159-163), so a list below an element that has a later sibling is reached
  through a dangling pointer whenever the vector moved (`NeonSchemas.DeeperListFails`). Lists directly
  below the root element are always safe, and these are the only ones the agent reads
  (server/src/jobs/impl/xml-pdc.h:40-41). Whatever names elements and attributes can have, the structures
  that are safe for every document with such names are exactly those of `NeonSchemas.SafeOnTop`: an
  attribute has no children, so what a structure would read below one does not matter.
- The result of the XML library's parser is not looked at (server/src/jobs/impl/neon.cpp:196): a page that
  breaks off is read like the page closed at that point (`NeonReader.CutOff`).
- The walk ends only on an error, a timeout or an error status (`SnmpWalk.RunsWhileAnswered`). The
  `break` for the end-of-view mark (server/src/jobs/impl/snmp.cpp:259) leaves the inner loop only. Against
  an agent that ends its table that way (section 4.2.2 of RFC 3416) the walk therefore returns only if some
  request is lost or fails, and until then reports the last name again and again
  (`SnmpWalk.WalkEndsExactly`, `SnmpWalk.MarkedRepeats`). With an error status (section 4.1.3 of RFC 1157)
  it always ends.
- A lost request ends the walk with success (server/src/jobs/impl/snmp.cpp:262-266): the caller then sees
  the names visited so far (`Mibs.MibsReader.TryAll`). The walk also goes on behind the subtree it begins in.
- The entry `daisy_chain` is read-only (server/src/jobs/assets.cpp:243), unlike every other entry
  `enrichAsset` appends. An entry of the device that the inventory maps to the key of an appended one hides
  it (`AssetSpec.ReadAsset`).
- Option and variable of the SNMP version can disagree: a community after a version 3 credential sets the
  variable back, and the option stays (server/src/jobs/impl/nut/process.cpp:186-188, 270;
  `NutProcess.TwoVersions`, exactly when). The agent never makes that sequence
  (server/src/jobs/assets.cpp:66-74; `NutProcess.AgentGivesOneVersion`).
- The empty-payload, bad-payload and thrown-error replies of a job are the same kind of message; part of
  an output that a job left behind when it threw is never sent (common/discovery-task.h:58-74).

## Model

| member | source | states |
|---|---|---|
| NeonSpine.WriteReachesTip | server/src/jobs/impl/neon.cpp:205 | A write through the cursor changes the innermost open element and no other node |
| NeonSpine.AttachIsWrites | server/src/jobs/impl/neon.cpp:205-207 | Growing the vector through the cursor and then writing through the returned reference appends one node at the tip of the open path, whether or not the elements moved |
| NeonSpine.AttachLives | server/src/jobs/impl/neon.cpp:79-84 | An append brings no old address back to life, and the addresses of moved siblings die |
| NeonSpine.AttachDistinct | server/src/jobs/impl/neon.cpp:79-84 | No two nodes share an address after an append |
| NeonSpine.AttachExact | server/src/jobs/impl/neon.cpp:205-214 | The account of which parent pointers hold and which dangle stays exact for the whole tree |
| NeonParser.AttachKeeps | server/src/jobs/impl/neon.cpp:205-214 | An append below the innermost open element keeps the whole storage invariant, one element deeper |
| NeonParser.ChainLinked | server/src/jobs/impl/neon.cpp:207 | The parent pointer of every open element designates the element it is in |
| NeonParser.StartStep | server/src/jobs/impl/neon.cpp:201-219 | From every state in order, a start event appends the element with its "a::" children behind everything else below the cursor, makes it the innermost element and moves no open element |
| NeonParser.ValueStep | server/src/jobs/impl/neon.cpp:221-236 | Text without the white space around it is appended as one "cdata" node, or nothing if none is left; the cursor stays |
| NeonParser.EndStep | server/src/jobs/impl/neon.cpp:238-245 | The assertion holds exactly for the name of the innermost element, and the stored parent pointer leads to the element that encloses it |
| NeonParser.NestedRun | server/src/jobs/impl/neon.cpp:201-245 | Every event sequence, complete or cut off: the run has no fault if and only if every end closes the innermost element, and then the cursor and all pointers from it to the root are right |
| NeonParser.RunForest | server/src/jobs/impl/neon.cpp:192-245 | Parsing rebuilds the document: at any cursor position exactly the document's tree is appended there, nothing else changes, the cursor is back |
| NeonDocument.ImageOfText | server/src/jobs/impl/neon.cpp:223-232 | In a document's tree character data is its text without the white space around it, in a node of its own, if any is left |
| NeonDocument.AttrTreesMean | server/src/jobs/impl/neon.cpp:209-214 | The attribute nodes are, in order, "a::" with the name and the value of each pair, without children; an odd name is dropped |
| NeonDocument.BuiltForest | server/src/jobs/impl/neon.cpp:201-245 | Event by event the events of a document build its image, below any open element and before any further events |
| NeonDocument.ClosedOff | server/src/jobs/impl/neon.cpp:238-245 | Closing what was left open completes the nesting and adds nothing to the tree |
| NeonParser.NestedBuilds | server/src/jobs/impl/neon.cpp:192-245 | For every properly nested sequence, complete or cut off, the parser's storage holds the tree that the events build one by one |
| NeonParser.ParsedDocument | server/src/jobs/impl/neon.cpp:258-262 | A whole document gives the same tree for every vector implementation, with the cursor on the root |
| NeonParser.ParentPointers | server/src/jobs/impl/neon.cpp:205-214 | Which parent pointers can be followed: those to a node that no younger sibling's append moved, and all others dangle |
| NeonBuilder.Parser.constructor | server/src/jobs/impl/neon.cpp:187-190 | An empty root with the cursor on it |
| NeonBuilder.Parser.AddChild | server/src/jobs/impl/neon.cpp:205-207 | `emplace_back` through a pointer and the writes through the new reference, as one step of the storage |
| NeonBuilder.Parser.StartEl | server/src/jobs/impl/neon.cpp:201-219 | The callback with its attribute loop does the start step |
| NeonBuilder.Parser.ValueEl | server/src/jobs/impl/neon.cpp:221-236 | The callback does the value step: blank text changes nothing, other text adds its trimmed form as a "cdata" child |
| NeonBuilder.Parser.EndEl | server/src/jobs/impl/neon.cpp:238-245 | The callback does the end step |
| NeonBuilder.Parser.Parse | server/src/jobs/impl/neon.cpp:192-198 | All callbacks of a properly nested sequence go through, and the parser stands on the innermost element left open |
| NeonReader.FirstNamed | server/src/jobs/impl/neon.cpp:140-142 | The first child with the key, and none exactly when no child has it |
| NeonReader.SameNamed | server/src/jobs/impl/neon.cpp:163-170 | The positions of all siblings of that name, each once, in document order |
| NeonReader.ReadChild | server/src/jobs/impl/neon.cpp:137-171 | For every schema and node: the pass gives what the document declares if every list on the way is reached through a pointer that still holds, and follows a dangling one otherwise |
| NeonReader.DeserializeExact | server/src/jobs/impl/neon.cpp:258-267 | The outcome of `deserialize` for all documents, schemas and vector implementations, both ways |
| NeonReader.DeserializeEvents | server/src/jobs/impl/neon.cpp:192-198 | The outcome of `deserialize` for every sequence of callbacks, also one that breaks off |
| NeonReader.CutOff | server/src/jobs/impl/neon.cpp:258-267 | A page that breaks off is read exactly like the page that is closed there |
| NeonSchemas.DeserializeDocument | server/src/jobs/impl/neon.cpp:258-267 | A document with one root element is read as declared into every structure that reads lists of elements for the root element and its children only, whatever names documents may use |
| NeonSchemas.SchemaExact | server/src/jobs/impl/neon.cpp:137-171 | For whatever names elements and attributes can have: these are exactly the structures that every document with such names is read into as declared whatever the vectors do; for every other one there is a document with such names that is not |
| NeonSchemas.AgentSchemas | server/src/jobs/impl/xml-pdc.h:27-49 | The agent's two page structures are of that kind, whatever names documents may use |
| NeonSchemas.AgentPages | server/src/jobs/impl/xml-pdc.h:54-87 | Both pages are read as declared from every document and with every vector implementation |
| NeonSchemas.DeeperListFails | server/src/jobs/impl/neon.cpp:157-171 | A concrete document and structure for which a deeper list is lost exactly when a vector of one element moves on growing |
| NeonVisitor.FindChild | server/src/jobs/impl/neon.cpp:140-142 | The search loop finds the first child with the key |
| NeonVisitor.Visit | server/src/jobs/impl/neon.cpp:131-180 | The dispatch over attribute kinds, with the parent check of lists, computes the pass |
| NeonVisitor.UnpackNode | server/src/jobs/impl/neon.cpp:137-147 | The loop over the fields computes the pass for an object |
| NeonVisitor.UnpackList | server/src/jobs/impl/neon.cpp:157-171 | The loop over the siblings creates one item for each of the same name |
| NeonVisitor.ReadDocument | server/src/jobs/impl/neon.cpp:258-267 | Parser and visitor together compute `deserialize` |
| NutOutput.MatchExact | server/src/jobs/assets.cpp:99 | The greedy match is found whenever the expression matches at all, and only the blanks before the value could be divided differently |
| NutOutput.ParseLineMeans | server/src/jobs/assets.cpp:99-107 | A line of key characters, a colon and white space gives what is before the blanks and the colon and what is behind all white space after it; any other line gives two empty texts |
| NutOutput.FirstValue | server/src/jobs/assets.cpp:106-108 | The value of the first line with the key, none exactly when no line has it |
| NutOutput.CollectGet | server/src/jobs/assets.cpp:105-109 | Filling the map keeps it sorted; a key keeps the value it had, or gets that of the first line carrying it |
| NutOutput.ParseOutputFirst | server/src/jobs/assets.cpp:97-109 | The map has for each key the value of the first line with that key |
| NutOutput.PrintParse | server/src/jobs/assets.cpp:97-109 | Printing any map of keys over [a-z0-9.] and values without leading blanks and line breaks, and parsing the text, gives the map back |
| OrderedMap.EmplaceGet | server/src/jobs/assets.cpp:108 | `emplace` adds an absent key and changes no value |
| OrderedMap.EmplaceSorted | server/src/jobs/assets.cpp:108 | The map stays sorted by key, without double keys, and gains at most that pair |
| OrderedMap.GetMeans | server/src/jobs/assets.cpp:112-121 | `find` finds exactly the pairs of the map |
| Order.LessMeans | server/src/jobs/assets.cpp:101 | The order is the lexicographic one: the first difference decides, and a proper beginning is smaller |
| Mapper.BacktrackLongest | server/src/jobs/impl/nut/mapper.cpp:55 | No way to match the expression has a longer first group than the one found |
| Mapper.LastIndexMeans | server/src/jobs/impl/nut/mapper.cpp:55-60 | The chosen segment is made of digits, is neither first nor last, and no inner segment behind it is made of digits; none is chosen exactly when there is none |
| Mapper.MatchBySegments | server/src/jobs/impl/nut/mapper.cpp:55-61 | Greedy matching with backtracking finds exactly the last inner segment of digits |
| Mapper.MapKeyBySegments | server/src/jobs/impl/nut/mapper.cpp:52-68 | The key is looked up with "#" in the place of that segment only, and the index put back; without such a segment, and where the template is not mapped, the result is the plain lookup of the key |
| Mapper.SegmentsJoin | server/src/jobs/impl/nut/mapper.cpp:55 | Joining dot-free pieces and splitting the key again gives them back |
| Mapper.JoinSegments | server/src/jobs/impl/nut/mapper.cpp:55 | Splitting a key and joining its segments gives the key back |
| Mapper.MapKeyEquivariant | server/src/jobs/impl/nut/mapper.cpp:59-66 | Where the template is mapped, for every index the result is the mapped template with that index at all its places and no "#" left |
| Mapper.SubstMeans | server/src/jobs/impl/nut/mapper.cpp:64 | The number takes the place of every "#", and nothing else changes |
| Mapper.SubstClears | server/src/jobs/impl/nut/mapper.cpp:64 | No "#" remains after an index was put in |
| Mapper.SubstInjective | server/src/jobs/impl/nut/mapper.cpp:64 | A mapping with a "#" keeps different indices apart |
| Mapper.StripComments | server/src/jobs/impl/nut/mapper.cpp:77-82 | The loop's output is the lines that are no comments, in order, each with a newline |
| Mapper.CommentMeans | server/src/jobs/impl/nut/mapper.cpp:78 | A comment line is one that begins, behind white space, with one of the two signs |
| Mapper.KeptMeans | server/src/jobs/impl/nut/mapper.cpp:77-82 | Line by line a comment is dropped and any other line stays in its place |
| Mapper.StripIdempotent | server/src/jobs/impl/nut/mapper.cpp:77-82 | The output's lines are the kept lines, and stripping it again changes nothing |
| Text.LinesUnlines | server/src/jobs/impl/nut/mapper.cpp:77-81 | Lines written each with a newline are read back by `getline` as they were |
| Text.UnlinesLines | server/src/jobs/assets.cpp:105-106 | The lines of a text make it up again, also a last one without newline |
| Text.TrimTrims | server/src/jobs/impl/neon.cpp:247-249 | Trimming takes all white space off both ends, and nothing else |
| Text.TrimmedUnique | server/src/jobs/impl/neon.cpp:247-249 | Only one text is a text without the white space around it |
| Text.DecimalInjective | server/src/jobs/assets.cpp:126 | Different device numbers have different decimal forms |
| Text.DecimalMeans | server/src/jobs/assets.cpp:126 | The decimal form has the number's value and no leading zeros |
| AssetSplit.PrefixesApart | server/src/jobs/assets.cpp:126-130 | A key has the prefix of one device at most: "device.1." takes nothing of "device.10." |
| AssetSplit.EntriesAreFed | server/src/jobs/assets.cpp:127-135 | The entries of a device are one to one and in key order all pairs under its prefix whose remaining key is mapped, with that mapping for the key and the value unchanged |
| AssetSplit.DevicesApart | server/src/jobs/assets.cpp:127-135 | No pair feeds two devices |
| AssetSplit.SplitIsPartition | server/src/jobs/assets.cpp:120-138 | All devices together have exactly as many entries as there are pairs that some device takes, for every number of devices |
| AssetSpec.ChainAt | server/src/jobs/assets.cpp:120-138 | Asset i of a chain of n is the enriched asset of device i + 1 |
| AssetSpec.AssetsShape | server/src/jobs/assets.cpp:111-152 | A device.count n above 1 gives n assets with the sub-addresses "1" to "n", no two alike, each with the entries under its own "device.i." in front; every other output gives one asset without sub-address, with the entries of all keys |
| AssetSpec.EnrichedShape | server/src/jobs/assets.cpp:161-245 | Enriching appends only: one uuid, a max_power exactly for a device with a nominal power, a daisy_chain exactly for "epdu"; no asset is a "pdu" or "ats" afterwards |
| AssetSpec.EnrichedExact | server/src/jobs/assets.cpp:161-245 | The enriched asset outright: "pdu" becomes "epdu", "ats" becomes "sts", other subtypes stay; behind the device's entries the connection, the uuid, the nominal power or else the default one, the settings, the place in the chain, with all values |
| AssetSpec.SaidMeans | server/src/jobs/assets.cpp:127-135 | What the device says under a key is the value of the first pair under its prefix that is mapped to it |
| AssetSpec.FoundGiven | server/src/jobs/assets.cpp:127-135 | Under every key the device's own entries give the value of the first pair, in key order, that feeds the device and is mapped to that key |
| AssetSpec.TailFlagged | server/src/jobs/assets.cpp:154-159 | Of the appended entries just the place in the daisy chain is read-only |
| AssetSpec.ReadAsset | server/src/jobs/assets.cpp:118-245 | What a client reads under every key of an asset, from the output alone: the device's own value if some pair that feeds it is mapped to the key, and what the job appended if and only if there is no such pair; what the appended entries are made from, and the final subtype |
| Assets.SearchPastConnection | server/src/jobs/assets.cpp:187-199 | The look-back searches over the grown list see only what came from the device |
| Assets.Job.AddAssetVal | server/src/jobs/assets.cpp:154-159 | One entry is appended, nothing else changes |
| Assets.Job.EnrichAsset | server/src/jobs/assets.cpp:161-245 | The asset's new state is the enriched value of its old one |
| Assets.Job.SetSubtype | server/src/jobs/assets.cpp:163-178 | An empty subtype is taken from the device's entries; "pdu" becomes "epdu", "ats" becomes "sts", any other stays |
| Assets.Job.AddConnection | server/src/jobs/assets.cpp:180-185 | The six connection entries, in order |
| Assets.Job.AddIdentity | server/src/jobs/assets.cpp:187-204 | The uuid entry, from the device's own entries only |
| Assets.Job.AddPower | server/src/jobs/assets.cpp:206-222 | The nominal power, else the default one, else nothing, from the device's own entries only |
| Assets.Job.AddSettings | server/src/jobs/assets.cpp:224-234 | The settings of the request, for SNMP |
| Assets.Job.AddDaisyChain | server/src/jobs/assets.cpp:236-244 | The place in the chain, for the final subtype "epdu" |
| Assets.Job.FillAsset | server/src/jobs/assets.cpp:127-135 | The loop over the map gives the asset the entries under its prefix |
| Assets.Job.AppendAsset | server/src/jobs/assets.cpp:139-151 | One new asset, filled and enriched; the assets before it are untouched |
| Assets.Job.AppendChain | server/src/jobs/assets.cpp:118-138 | The loop over the devices appends the chain |
| Assets.Job.CollectLines | server/src/jobs/assets.cpp:105-109 | The loop over the lines fills the map |
| Assets.Job.Parse | server/src/jobs/assets.cpp:97-152 | The answer grows by exactly the assets of the output, and what was in it stays as it was |
| SnmpWalk.RunsWhileAnswered | server/src/jobs/impl/snmp.cpp:237-266 | For every peer: the loop runs on after n rounds if and only if each round brought a response without error status |
| SnmpWalk.MarkedRuns | server/src/jobs/impl/snmp.cpp:247-264 | Against an agent that marks the end by a variable the loop runs on if and only if every request so far was delivered, and calls back once in each round |
| SnmpWalk.MarkedRepeats | server/src/jobs/impl/snmp.cpp:251-261 | Such an agent's calls are those of the same table with an error status at its end, and behind them the last name again and again |
| SnmpWalk.EndsByStatus | server/src/jobs/impl/snmp.cpp:262-264 | With an error status the walk ends after at most one round more than there are names left |
| SnmpWalk.WalkEndsExactly | server/src/jobs/impl/snmp.cpp:237-266 | The walk of a finite table returns if and only if the agent ends it with an error status or some request is not delivered |
| SnmpWalk.AfterCovered | server/src/jobs/impl/snmp.cpp:237-266 | After n rounds against an agent that ends with an error status the calls are the first n names behind the root, each once, in order |
| SnmpWalk.HandleVars | server/src/jobs/impl/snmp.cpp:251-261 | The inner loop calls back for every variable up to the first end mark and takes over the last proper name |
| SnmpWalk.TakeVarsMeans | server/src/jobs/impl/snmp.cpp:251-261 | For a response with any number of variables: the callback gets all names up to and with the first mark of whatever kind, and the walk goes on from the last name before it |
| SnmpWalk.Walk | server/src/jobs/impl/snmp.cpp:225-267 | The walk of such an agent terminates; the calls are the ascending enumeration of the table behind the root, or its first part when a request was lost or failed |
| SnmpWalk.RunWalk | server/src/jobs/impl/snmp.cpp:237-266 | The outer loop, with the table above the current name as its measure |
| SnmpWalk.CompleteWalk | server/src/jobs/impl/snmp.cpp:225-267 | With every request delivered the calls are the one ascending enumeration there is |
| SnmpWalk.NextExists | server/src/jobs/impl/snmp.cpp:238-239 | Every finite table has a GETNEXT that gives the least larger name |
| Mibs.MibsReader.constructor | server/src/jobs/impl/mibs.cpp:111-114 | A reader whose session is not open |
| Mibs.MibsReader.EnsureOpen | server/src/jobs/impl/mibs.cpp:133-138 | The session is opened unless it is open, and a failure is reported and changes nothing else |
| Mibs.MibsReader.Read | server/src/jobs/impl/mibs.cpp:131-181 | The discipline of the session is kept; a success is a non-empty set; which set, on each of the three branches |
| Mibs.MibsReader.TryAll | server/src/jobs/impl/mibs.cpp:151-162 | The branch that walks gives the modules of exactly the visited names, or the walk's error |
| Mibs.MibsReader.VisitedNames | server/src/jobs/impl/mibs.cpp:151-162 | Order and repetition do not matter; when everything was delivered the set is that of all names of the table |
| Mibs.MibsReader.CollectVisited | server/src/jobs/impl/mibs.cpp:152-159 | The callback inserts the text before "::" of exactly the names that pass the filter and contain it |
| Mibs.FilterMeans | server/src/jobs/impl/mibs.cpp:29-33 | A name is filtered out exactly for one of the six prefixes with no line break behind it |
| Mibs.ModuleMeans | server/src/jobs/impl/mibs.cpp:154-157 | The module of a name is what is before its first "::" |
| Mibs.ModulesMean | server/src/jobs/impl/mibs.cpp:152-159 | A module is collected exactly if some name passes the filter and has it |
| Mibs.SystemMeans | server/src/jobs/impl/mibs.cpp:144-149 | What is kept of the system object id is what is before its first dot, or all of it |
| Mibs.MibsReader.TryKnown | server/src/jobs/impl/mibs.cpp:164-173 | The loop over the known objects collects the modules of those that answer |
| Mibs.AnsweredMean | server/src/jobs/impl/mibs.cpp:164-173 | A module is collected exactly if some known object that answers has it |
| Mibs.MibsReader.ReadName | server/src/jobs/impl/mibs.cpp:183-196 | The description, after opening the session if needed; the exact questions asked |
| Mibs.Begin | server/src/jobs/assets.cpp:58 | The first element of a non-empty ordered set is its least one |
| Mibs.PrepareSnmp | server/src/jobs/assets.cpp:35-61 | The request goes on exactly if the credential is taken and the reader gives names; then it has a port, and its own MIB or the least of the very names read; each failure passes its own error on |
| Messages.WireRoundTrip | common/message.cpp:48-80 | Every message survives the bus form and back |
| Messages.WireFields | common/message.cpp:65-80 | Which datum goes under which key of the bus message, and the status words |
| Messages.FromWireFields | common/message.cpp:48-63 | Each datum is the text under its key, or empty, and the user datum is the first one, or empty |
| Messages.FirstWordMeans | common/message.h:87-88 | The word read is what is between the leading and the next white space |
| Messages.StatusRoundTrip | common/message.h:72-95 | The status words are read back as what was written |
| Messages.StatusDefaults | common/message.cpp:58 | A message is an error exactly when its status says "ko"; absent and unknown words count as good |
| MessageBus.Message.constructor | common/message.h:57-70 | A message object with the given content |
| MessageBus.Bus.Send | common/message-bus.cpp:50-66 | The request leaves once, with its id or a new one and the actor's name, otherwise as it was; an error status or exception is an error with its text, any other message a value |
| MessageBus.Bus.Reply | common/message-bus.cpp:68-82 | The answer leaves once, with the request's id and the addresses swapped |
| Tasks.Response.SetError | common/discovery-task.h:50-54 | Error text and status |
| Tasks.Response.ToMessage | common/discovery-task.h:56-76 | The value, its empty form, or the error text, by status |
| Tasks.RunJob | common/discovery-task.h:94-110 | The try block ends with the two payload errors, with what the job threw, or normally with the job's output |
| Tasks.Work | common/discovery-task.h:91-123 | Whatever the job does, exactly one reply is handed to the bus, to the request's sender and with its id; it is an error for the two bad payloads and for what the job threw, and the output otherwise |
| Tasks.FaithfulResult | common/discovery-task.h:50-76 | End to end: exactly these errors for an empty and an unreadable payload; otherwise the client gets a value exactly when the job returned, with its output's text, and exactly the text of what it threw |
| Discovery.Dispatcher.Discover | server/src/discovery.cpp:80-91 | A worker for each of the three subjects, nothing for others |
| Discovery.StepConserves | server/src/discovery.cpp:80-91 | A step of any party loses and duplicates no request |
| Discovery.StepGenuine | common/discovery-task.h:91-123 | A step of any party keeps: workers only for known subjects, every answer computed from its own worker's request by the job run for it |
| Discovery.StepOneRun | common/discovery-task.h:106-107 | A step of any party keeps: no two answers, sent or waiting, come from the same run of a job |
| Discovery.StepTakenOnce | common/message-bus.cpp:58 | A step of any party keeps: no reply is taken twice |
| Discovery.StepInFlight | common/message-bus.cpp:53-58 | As long as a new id differs from those of the requests in flight, each of these is in one place and their ids differ |
| Discovery.RunKeeps | server/src/discovery.cpp:80-91 | Every run of every interleaving keeps: nothing is lost or duplicated, every answer comes from its own request and a run of its own, no reply is taken twice |
| Discovery.RepliesHaveRequests | common/message-bus.cpp:72-74 | Every reply belongs to a request that was sent with a known subject, with its id and its addresses swapped |
| Discovery.AnsweredAtMostAsSent | common/discovery-task.h:91-123 | Nothing is answered more often than it was sent, whatever the ids |
| Discovery.NoneAnsweredTwice | common/discovery-task.h:91-123 | With distinct ids no request is answered twice, and no run of a job gives two replies |
| Discovery.DrainedAnswered | server/src/discovery.cpp:80-91 | Once queue and pool are empty, exactly the requests with a known subject were answered, as often as they were sent |
| Discovery.NoCrossTalk | common/message-bus.cpp:58-62 | If no two requests in flight have the same id, the reply a client takes was made for its own request, computed from that request's payload by a job for its subject, and nobody else takes it |
| Discovery.FaithfulToClient | common/message-bus.cpp:57-62 | Under the same condition, for a reply a client took: exactly these errors for the two bad payloads; otherwise a value exactly when the job run on its payload returned, with that output's text, and exactly the text of what it threw |
| Discovery.DistinctReachable | common/message-bus.cpp:53-55 | Ids that are never used twice meet that condition |
| Discovery.InternalRunsEnd | server/src/discovery.cpp:80-91 | Without new requests dispatcher and workers come to rest after a bounded number of steps, in any order |
| Discovery.NeverStuck | server/src/discovery.cpp:80-91 | As long as a request is queued or with a worker, a step is possible |
| NutProcess.XArgOption | server/src/jobs/impl/nut/process.cpp:272-273 | An appended option decides what a driver reads under its name, and under no other |
| NutProcess.SetTwinGrows | server/src/jobs/impl/nut/process.cpp:271-273 | Setting a value in both places keeps the two in agreement for all settings |
| NutProcess.SettersAgree | server/src/jobs/impl/nut/process.cpp:132-306 | Every sequence of setters appends well-formed options only, and for each setting given both ways the last option equals the environment |
| NutProcess.FirstGrown | server/src/jobs/impl/nut/process.cpp:30-116 | A command just initialized has none of these settings in either place |
| NutProcess.BuiltCommand | server/src/jobs/impl/nut/process.cpp:96-306 | Both together, for every protocol |
| NutProcess.LastSetterWins | server/src/jobs/impl/nut/process.cpp:132-291 | In both places the SNMP driver sees exactly what the last setter that concerns a setting said |
| NutProcess.LastVariableWins | server/src/jobs/impl/nut/process.cpp:132-306 | The protocol version and the MIB in the environment are those of the last setter that concerns them |
| NutProcess.LastLoginWins | server/src/jobs/impl/nut/process.cpp:226-258 | After every sequence of setters the driver with user and password is told those of the last setter that gives them, each under its own name, and none if no setter does |
| NutProcess.V3Arguments | server/src/jobs/impl/nut/process.cpp:186-216 | The arguments a version 3 credential appends, outright |
| NutProcess.V3Environment | server/src/jobs/impl/nut/process.cpp:186-216 | The variables a version 3 credential sets, outright |
| NutProcess.TwoVersions | server/src/jobs/impl/nut/process.cpp:186-273 | Option and environment name different versions if and only if a version 3 credential is followed by a community that no such credential follows |
| NutProcess.AgentGivesOneVersion | server/src/jobs/assets.cpp:66-85 | The setters the agent calls never give two versions, whatever the request |
| NutProcess.OthersUntouched | server/src/jobs/impl/nut/process.cpp:132-306 | Other drivers keep their environment under every sequence, and the XML driver everything |
| NutProcess.Process.Init | server/src/jobs/impl/nut/process.cpp:96-116 | The first command of each protocol outright, with its default port and variables, or an error and no change |
| NutProcess.Process.SetCredentialId | server/src/jobs/impl/nut/process.cpp:132-246 | What each kind of credential does for each protocol, outright for a community and for user and password, and when it is refused |
| NutProcess.Process.SetCredential | server/src/jobs/impl/nut/process.cpp:248-258 | "username=" with the user and "password=" with the password are appended, for one protocol; other processes stay as they are |
| NutProcess.Process.SetCommunity | server/src/jobs/impl/nut/process.cpp:260-275 | Version and community in both places, or the reason for refusing |
| NutProcess.Process.SetTimeout | server/src/jobs/impl/nut/process.cpp:277-291 | The timeout in whole seconds in both places, or the reason for refusing |
| NutProcess.Process.SetMib | server/src/jobs/impl/nut/process.cpp:293-306 | The MIB's legacy name in the environment, or the reason for refusing |

## Left out

- Sockets, name resolution, HTTP, launching and waiting for processes, file checks and temporary
  directories: no logic of their own; their outcomes are parameters.
- SHA-1, random UUIDs and the bit masks of a UUID: `generateUUID` is an unknown function of its three
  texts; a random answer for empty texts is not told apart.
- SNMP session setup, security levels and keys, reading values by type, and the wallet client: library
  calls and simple switches.
- REST handlers, command line, daemon, configuration, logging, subscribing to the bus: plumbing.
- `Protocols::run`, `sortMibs`, the known and the legacy MIB tables: small or constant; the tables are
  parameters where a member needs them.
- JSON and YAML forms and the `pack` library: payloads are decoded by an unknown function.
- Mapper.StripComments: the mapping file's reading and its caching between calls are not modelled.
- NeonVisitor.Visit: fields that are scalars keep the node's text; conversion to other scalar types is
  not modelled, and the target is a fresh structure.
- Assets.Job.AddAssetVal: an entry is a key, a value and a flag; the source's string map would mix up an
  inventory name that is itself "read_only".
- Assets.Job.Parse: `device.count` is turned into an unbounded integer.
- SnmpWalk.Walk: names are unbounded sequences; the buffer limit on a name's length and on its rendered
  text is not modelled.
- Mibs.MibsReader.Read: the endpoint ends its table with an error status; it answers the same question always in the same way; the lookups of one
  reader are not interleaved with changes of the device.
- MessageBus.Bus.Send: the lock is not modelled, a call is one step; the wait for the answer is its outcome.
- Tasks.Work: the branch for an object that is not the task it was started as cannot be reached through
  the pool and is not modelled; a reply the bus refuses counts as the one attempt.
- Discovery.NoCrossTalk: that a client takes a reply by id and name is how the bus library is assumed to
  match; a client that gave up waiting is one that never takes its reply.
- NutProcess.Process.SetCredential: the source follows the process pointer without a check, so the model
  asks for an initialized process where the source needs one.
- NutProcess.Process.Init: addresses, ports and the numbers in them are not bounded; the error text for a
  missing executable is a parameter.
