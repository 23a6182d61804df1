# Verified models of the eCryptfs userspace engines

eCryptfs keeps its userspace logic in a handful of small stateful engines behind
a lot of I/O. This project models them in Dafny, in the form the C code has
(classes and arrays edited in place, loops with invariants), proves every such
method equal to a specification function, and proves what the engines are for
about those functions.

* **Decision graph** (`DecisionGraph`, `DecisionGraphRuns`, `DecisionEngine`,
  `Prompts`, `PlainNodes`, `ExitPatching`, `LinearSubgraph`, `KeySelection`,
  `FilenameCrypto`): mount parameters are gathered by walking a graph of nodes
  against a list of name/value pairs and the user's answers. C pointers are node
  ids in a map, so nodes can be shared and edges rewired while an evaluation runs.
* **Kernel messages** (`PacketLength`, `Packets`, `Miscdev`): length octets, frames,
  requests and replies, and the daemon loop with its error budget.
* **Option strings** (`Tokens`, `OptionParser`, `OptionGrammar`, `PairUnion`,
  `StripOptions`): parsing, merging the command line into the rc file, and
  removing what only the mount helper understands.
* **Tables, pools and counters** (`SidTable`, `TicketPool`, `MountCounter`).
* **Extent arithmetic** (`Arithmetic`, `Extents`).
* **Passphrase wrapping** (`PassphraseWrapping`), over an abstract hash and an
  abstract invertible block cipher.

`Common` holds the shared vocabulary. A NULL pointer in a node, branch or value
of the decision graph that the C code would follow, and a block used or freed after
it was freed, is the return code `FAULT`, at which the run stops.

Properties that hold of the code only under a condition come with that condition
as an "if and only if", and with what happens outside it:

* a menu follows the branch of its value exactly if no earlier branch's name occurs
  in the pair list, even in a pair already used (`MenuFollowsIff`,
  `EarlierNameWins`);
* a pair called "default" makes a callback run once more per such pair
  (`PushedOncePerDefaultPair`); in a linear subgraph it repeats the values and then
  kills the process at the exit node, unless that node was given the value
  "default" (`ChainCollects`);
* a value that must not be empty is given up after three empty lines with a
  positive code, which the evaluation takes for a success (`ThreeEmptyLines`); so is
  a key module that nobody registered (`UnknownModuleEndsIt`);
* a key module's values land in another module exactly if an alias registered
  earlier is a prefix of its own (`SelectsItselfIff`);
* with two or more pairs `ecryptfs_fnek_sig` without a value, a yes can end in a
  mount without filename encryption: as many yeses are needed as there are such
  pairs (`FilenameCryptoSettles`), and whether some answers break it can be read
  off the pairs (`YesIsHonouredIff`);
* the daemon's loop frees a message twice at the first receive error after an
  accepted frame, and a key twice when a module's result is oversize
  (`NoDoubleFreeIff`, `HeloThenFailedRead`);
* packet lengths survive writing and parsing exactly below 8384, although the
  writer accepts sizes up to 65535 (`LengthRoundTrip`);
* adding a pair to the session table clears up to octet 2i + 8, because the end
  position is passed as a length: that stays in the segment exactly up to 255
  pairs, or for the very last slot (`ClearStaysInside`, `ReachesBehindIff`);
* releasing a ticket that was not grabbed last loses tickets
  (`ReleaseKeepsAccountIffLast`), and releasing a lost one makes the used list
  share the free list's tail (`ReleaseInGrabOrder`);
* forcing an unmount sets the counter to zero exactly when it is below MAXINT
  (`ZeroIffBelowMax`);
* extents are where the format says for all extents exactly when the extent size
  divides the page size and the header (`ExactIffDivides`);
* the parser takes a name up to the last '=', so a list is read back exactly when
  its values hold none (`PairReadBackIff`, `ParseOfPrint`), although the grammar in
  the README allows '=' in values;
* the empty passphrase is written as a bare signature that can never be unwrapped
  (`EmptyPassphraseIsLost`).

Where the code and its comments disagree, the code is modelled: the comment above
`ecryptfs_build_linear_subgraph` speaks of n + 2 nodes and the code makes n + 1,
and its error for an empty parameter list is overwritten before it returns; the
comment in `bump_counter` promises that a delta of zero removes the file.

## Model

| member | source | states |
|---|---|---|
| `DecisionGraphRuns.EvaluationTerminates` | src/libecryptfs/decision_graph.c:709-735 | evaluation of any acyclic graph whose callbacks rewire nothing stops within 5 (rank + 1) iterations, for all pairs and answers |
| `DecisionGraphRuns.StepSpendsBudget` | src/libecryptfs/decision_graph.c:207-308 | one iteration keeps the edges and strictly lowers the budget: five per rank below, less the re-asks already used at this node |
| `DecisionGraphRuns.TransitionMoves` | src/libecryptfs/decision_graph.c:207-308 | a transition follows an edge of its node or counts one more re-ask below five at the same node |
| `DecisionGraphRuns.EachPairConsumedOnce` | src/libecryptfs/decision_graph.c:709-735 | over a whole evaluation, with any callbacks, a pair is delivered to at most one node, marks only grow, a pair is marked exactly if it was or has been delivered, names and values stay |
| `DecisionGraphRuns.RetrieveKeepsLedger` | src/libecryptfs/decision_graph.c:317-375 | one delivery keeps that ledger |
| `DecisionGraphRuns.FindPairIsFirst` | src/libecryptfs/decision_graph.c:326-364 | the search returns the first unprocessed pair of a name, and nothing exactly if there is none |
| `DecisionGraphRuns.ChoosePairIsFirstForHighestAlias` | src/libecryptfs/decision_graph.c:317-375 | the pair taken is the first unprocessed one of the highest-index alias that has any; none is taken exactly if no alias has one |
| `DecisionGraphRuns.ValueDecidesBranch` | src/libecryptfs/decision_graph.c:221-274 | the branch that carries the node's value is taken when every earlier one is missed |
| `DecisionGraphRuns.ImplicitMenuTakesFirstSupplied` | src/libecryptfs/decision_graph.c:414-448 | an implicit-transition menu, with or without an overridable pair or default of its own, delivers the pair of its first supplied target and takes that branch's name as value |
| `DecisionGraphRuns.ImplicitMenuKeepsOwnValue` | src/libecryptfs/decision_graph.c:402-467 | with no target supplied, a menu that may not ask keeps its own value, such as its default |
| `DecisionGraphRuns.MenuFollowsIff` | src/libecryptfs/decision_graph.c:221-274 | without callbacks, the branch of the menu's value is followed if and only if no earlier branch's name is in the list, and otherwise the first such branch is |
| `DecisionGraphRuns.ImplicitMenuFollowsIff` | src/libecryptfs/decision_graph.c:207-448 | the whole iteration goes to the first supplied target if and only if no earlier branch's name is in the list |
| `DecisionGraphRuns.OwnValueFollowsIff` | src/libecryptfs/decision_graph.c:207-448 | and with nothing supplied to the branch of the menu's own value under the same condition |
| `DecisionGraphRuns.EarlierNameWins` | src/libecryptfs/decision_graph.c:247-273 | the first earlier branch whose name is in the list, even as a used pair, is hit: followed without a callback, and decided by the callback's token with one |
| `DecisionGraph.RetrieveVal` | src/libecryptfs/decision_graph.c:317-375 | fetching a value touches no edge, name, default, stack or static, and keeps the number of pairs |
| `DecisionGraph.AllocAndGetVal` | src/libecryptfs/decision_graph.c:382-691 | neither does any way of obtaining a value; answers are only used up |
| `DecisionGraph.DoTransition` | src/libecryptfs/decision_graph.c:207-308 | for every sane callback, a transition keeps the node set, the pairs and the input, and a zero code comes with a node of the graph |
| `Prompts.NumberPicks` | src/libecryptfs/decision_graph.c:577-619 | typing the number k at a menu whose branches all have values leaves exactly the value of branch k - 1, with one line used |
| `Prompts.NamePicks` | src/libecryptfs/decision_graph.c:577-619 | typing the name of a branch leaves that name |
| `Prompts.EmptyPicks` | src/libecryptfs/decision_graph.c:594-609 | an empty line leaves the suggested value if that names a branch |
| `Prompts.OtherIsAskedAgain` | src/libecryptfs/decision_graph.c:577-619 | any other line is as if it had not been typed |
| `Prompts.RejectedLinesDoNotMatter` | src/libecryptfs/decision_graph.c:577-619 | so are any number of them in front of the line that decides |
| `Prompts.NumberLeads` | src/libecryptfs/decision_graph.c:207-691 | when no earlier branch is named in the list, typing k leads the iteration along branch k - 1, through its callback if it has one |
| `Prompts.AnswerIsUsedIff` | src/libecryptfs/decision_graph.c:449-691 | an unset node uses an answer if and only if it takes values, is in an interactive run without a bare pair or insists on standard input, may prompt and has a choice; else it gets the sole choice, nothing, or code 3 |
| `Prompts.OwnPairSettles` | src/libecryptfs/decision_graph.c:395-417 | the chosen pair's value is final unless an implicit transition may override it; no answer is used |
| `Prompts.NonemptyAmongThree` | src/libecryptfs/decision_graph.c:626-681 | where a value is required, the first nonempty line among three is the value |
| `Prompts.ThreeEmptyLines` | src/libecryptfs/decision_graph.c:626-681 | after three empty lines the prompt ends with the positive code 22 |
| `Prompts.VerifiedIff` | src/libecryptfs/decision_graph.c:644-681 | a round of a verified prompt accepts if and only if the same line, not empty where that is forbidden, was typed twice; which value it leaves |
| `Prompts.AcceptedWasTypedTwice` | src/libecryptfs/decision_graph.c:626-681 | over the whole prompt the value accepted is the last line used, and the line before it was the same |
| `DecisionEngine.Engine.RetrieveVal` | src/libecryptfs/decision_graph.c:317-375 | the nested loops over aliases and pairs, on the mutable state, do what the specification says |
| `DecisionEngine.Engine.ImplicitScan` | src/libecryptfs/decision_graph.c:418-448 | the loop over successors does what the specification says |
| `DecisionEngine.Engine.CheckReply` | src/libecryptfs/decision_graph.c:585-617 | a number picks a branch, an empty line the suggested value, the rest is compared with every branch: the reply that `Prompts.NumberPicks`, `NamePicks`, `EmptyPicks` and `OtherIsAskedAgain` determine |
| `DecisionEngine.Engine.AskMenu` | src/libecryptfs/decision_graph.c:577-619 | the unbounded re-ask loop ends with the input and does what the specification says |
| `DecisionEngine.Engine.AskOnce` | src/libecryptfs/decision_graph.c:644-681 | one round of the plain prompt, with the empty-value and verification tests in the source's order |
| `DecisionEngine.Engine.AskPlain` | src/libecryptfs/decision_graph.c:626-681 | the loop of at most three tries does what the specification says |
| `DecisionEngine.Engine.Ask` | src/libecryptfs/decision_graph.c:449-691 | the choice between no prompt, a menu and a plain prompt |
| `DecisionEngine.Engine.AllocAndGetVal` | src/libecryptfs/decision_graph.c:382-691 | pairs, implicit transitions and prompts in the source's order |
| `DecisionEngine.Engine.ScanPairs` | src/libecryptfs/decision_graph.c:247-273 | one branch against the whole pair list, callbacks included |
| `DecisionEngine.Engine.ScanBranches` | src/libecryptfs/decision_graph.c:221-274 | the first loop of a transition |
| `DecisionEngine.Engine.TakeDefault` | src/libecryptfs/decision_graph.c:278-303 | the default branch: its callback, the count of re-asks, and the target |
| `DecisionEngine.Engine.DoTransition` | src/libecryptfs/decision_graph.c:207-308 | both loops and the statics |
| `DecisionEngine.Engine.GetVerbosity` | src/libecryptfs/decision_graph.c:693-707 | the first "verbosity" pair, one without any |
| `DecisionEngine.VerbosityIs` | src/libecryptfs/decision_graph.c:693-707 | one without a pair "verbosity"; else the number in the first such pair, used up or not, and a NULL pointer followed if it has no value |
| `Common.AtoiSigned` | src/libecryptfs/decision_graph.c:585-592 | a text that starts with decimal digits is read as their number, behind a space too, and negated behind a minus sign |
| `DecisionEngine.Engine.EvalParamTree` | src/libecryptfs/decision_graph.c:709-735 | the evaluation loop, wherever the abstract run stops, returns with the world and code of that run, rewiring callbacks included |
| `DecisionEngine.Engine.EvalAcyclicTree` | src/libecryptfs/decision_graph.c:709-735 | on every acyclic graph with non-rewiring callbacks the loop returns, within five iterations per rank |
| `DecisionEngine.Engine.EvalDecisionGraph` | src/libecryptfs/decision_graph.c:737-748 | evaluates from an empty stack; every positive code of the abstract run but 3 (MOUNT_ERROR) becomes a success |
| `PlainNodes.SoleDefaultBranch` | src/libecryptfs/decision_graph.c:207-308 | with one branch "default" and no pair of that name, that branch is taken |
| `PlainNodes.DeadEnd` | src/libecryptfs/decision_graph.c:221-303 | a sole branch that leads nowhere ends the evaluation with 22, a success, if the value is the word "default", and with -22 otherwise |
| `PlainNodes.WrongValueIff` | src/libecryptfs/decision_graph.c:278-303 | a wrong value is asked for again if and only if the run is interactive or the node insists on standard input, and it was at most the fourth in a row; else -22 |
| `PlainNodes.SoleDefaultScan` | src/libecryptfs/decision_graph.c:207-308 | with such pairs, it is first tried on each of them |
| `PlainNodes.PlainAlloc` | src/libecryptfs/decision_graph.c:382-691 | a plain node's value: first unused pair, else default, else nothing, else one answer |
| `PlainNodes.AllocOnlyAt` | src/libecryptfs/decision_graph.c:382-691 | a node without implicit transitions gets its value without any other node changing |
| `ExitPatching.GraphStore.PatchEdge` | src/libecryptfs/decision_graph.c:113-138 | a NULL edge gets "default" and the exit node, any other edge is kept |
| `ExitPatching.GraphStore.SetExitParamNodeForNode` | src/libecryptfs/decision_graph.c:113-138 | the recursion ends although it revisits shared nodes and enters the exit node's subgraph; exactly the edges below the node are patched |
| `ExitPatching.GraphStore.SetExitParamOnGraph` | src/libecryptfs/decision_graph.c:140-150 | every reachable NULL edge leads to the exit node, every other edge, node and field is as before, and the graph stays acyclic |
| `ExitPatching.NoNullEdgeLeft` | src/libecryptfs/decision_graph.c:113-138 | afterwards no NULL edge can be reached in the patched graph |
| `ExitPatching.PatchedReach` | src/libecryptfs/decision_graph.c:113-138 | patching makes nothing reachable but the exit side |
| `ExitPatching.PatchedIsRanked` | src/libecryptfs/decision_graph.c:113-138 | the patched graph has a topological order |
| `LinearSubgraph.SubgraphBuilder.BuildLinearSubgraph` | src/libecryptfs/decision_graph.c:1117-1227 | for any parameter list a chain of n + 1 nodes is added, each leading to the next, and nothing else changes |
| `LinearSubgraph.LinearCallbacksSane` | src/libecryptfs/decision_graph.c:934-1081 | the three callbacks rewire nothing and keep the frame |
| `LinearSubgraph.AllocResolves` | src/libecryptfs/decision_graph.c:382-691 | a parameter node gets its resolved value |
| `LinearSubgraph.TakeValMoves` | src/libecryptfs/decision_graph.c:965-998 | a parameter node appends its value once, and once more per pair called "default" unless the value is that word |
| `LinearSubgraph.LeaveMoves` | src/libecryptfs/decision_graph.c:1010-1081 | the exit callback stores the values; run a second time, for a pair called "default", it uses its freed context |
| `LinearSubgraph.ParamStep` | src/libecryptfs/decision_graph.c:965-998 | an iteration at a parameter node appends its value, if any, and goes to the next |
| `LinearSubgraph.ExitStep` | src/libecryptfs/decision_graph.c:1010-1081 | the exit node, as built or patched, stores the collected values and pushes the key's signature, or dies after storing them exactly if its callback runs twice |
| `LinearSubgraph.ChainCollects` | src/libecryptfs/decision_graph.c:934-1227 | evaluating any chain, for any pair list, leaves exactly the resolved values in parameter order (repeated once per pair called "default"), or stops with the error of the first that cannot be had and stores nothing |
| `KeySelection.SelectsItselfIff` | src/libecryptfs/key_mod.c:395-413 | an alias finds its own module if and only if no earlier registered alias is a prefix of it |
| `KeySelection.UnknownModuleEndsIt` | src/libecryptfs/key_mod.c:395-413 | a selected name that no alias is a prefix of ends the evaluation with code 1, which counts as a success, with no module entered |
| `KeySelection.SelectionStep` | src/libecryptfs/decision_graph.c:934-957 | selecting a linear module by its alias enters its chain with an empty list for the module the alias finds |
| `KeySelection.SelectionCollects` | src/libecryptfs/decision_graph.c:934-1081 | from the selection node to the stored values of the found module |
| `KeySelection.TypedSelection` | src/libecryptfs/decision_graph.c:577-619 | typing the number b + 1 at the selection node selects the chain of branch b |
| `KeySelection.HangModules` | src/libecryptfs/module_mgr.c:821-873 | the loop over the registered modules: a chain for one without a subgraph, the entry of its own for one with, none for an excluded one, in order, and -ENOMEM exactly beyond 64 branches |
| `KeySelection.PatchedEntry` | src/libecryptfs/decision_graph.c:113-144 | a built subgraph, patched from the selection node, is the chain that leads to the exit node |
| `KeySelection.PatchedBranchLeads` | src/libecryptfs/decision_graph.c:113-138 | a NULL branch, even one without a name, is taken by default after patching and leads to the exit node |
| `KeySelection.AssembleSelection` | src/libecryptfs/module_mgr.c:821-884 | that loop, then exit patching: every chain leads to the exit node, own subgraphs have at most their NULL edges patched, and with none of those all other nodes are unchanged |
| `KeySelection.AssembledSelectionCollects` | src/libecryptfs/module_mgr.c:788-916 | evaluating the assembled graph, whatever other modules are registered, stores the selected linear module's parameter values, in that module if and only if no earlier alias is a prefix of its own, and goes on at the exit node |
| `FilenameCrypto.FilenameCallbacksSane` | src/libecryptfs/module_mgr.c:180-277 | the two rewiring callbacks keep the frame |
| `FilenameCrypto.YesAndNo` | src/libecryptfs/module_mgr.c:105-116 | exactly "y" and "yes" are a yes, exactly "n" and "no" a no |
| `FilenameCrypto.FirstSigIs` | src/libecryptfs/module_mgr.c:246-263 | the suggested signature is s if and only if some entry of the stack is "ecryptfs_sig=" + s and none before it has that prefix |
| `FilenameCrypto.FnekStep` | src/libecryptfs/module_mgr.c:180-227 | an iteration at the signature node: "ecryptfs_fnek_sig=" with the supplied value, or the typed line, or for an empty line the suggested signature, is pushed; or the "enable" node is spliced in; or input is out |
| `FilenameCrypto.EnableStep` | src/libecryptfs/module_mgr.c:229-293 | an iteration at the "enable" node: back on yes, end on no, at most five wrong answers |
| `FilenameCrypto.YesLeadsBack` | src/libecryptfs/module_mgr.c:229-277 | it leads back to the signature node on a yes and on nothing else |
| `FilenameCrypto.VisitsAreYeses` | src/libecryptfs/module_mgr.c:180-293 | over a run the signature node is visited once and once more for every yes |
| `FilenameCrypto.StageRuns` | src/libecryptfs/module_mgr.c:180-293 | from every stage of the pair the run settles in a bounded number of iterations, with one signature pushed exactly if its visits used up the leading bare requests: the supplied pair's value, else the last line used, else for an empty line the stack's first signature |
| `FilenameCrypto.FilenameCryptoSettles` | src/libecryptfs/module_mgr.c:162-293 | with L bare requests in front of the first valued one, a whole run stops with an error or in a mount (at the end node, or at the word "default" with nothing pushed) after 1 + yeses signature visits, yeses at most max(1, L); a mount has one signature pushed exactly if one was supplied or the yeses reach max(1, L), else none; it is the supplied value, else the last line used, else for an empty line the stack's first signature |
| `FilenameCrypto.YesThenNo` | src/libecryptfs/module_mgr.c:180-293 | with nothing set for the enable node, "pushed exactly if supplied or a yes was given" holds for every supply of answers if and only if L is at most one; beyond, the answers yes and no break it |
| `FilenameCrypto.NeverSpoiled` | src/libecryptfs/module_mgr.c:180-293 | where the pairs' fate allows it, no answers lead to a mount with a yes given and nothing pushed |
| `FilenameCrypto.SpoiledByAnswers` | src/libecryptfs/module_mgr.c:180-293 | where it does not, the answers no or yes and no do |
| `FilenameCrypto.YesIsHonouredIff` | src/libecryptfs/module_mgr.c:180-293 | for any pairs and flag of the enable node: "pushed exactly if supplied or a yes was given" holds for every supply of answers if and only if the flag is set or the scan `Fate` over the enable pairs is false |
| `FilenameCrypto.PushedOncePerDefaultPair` | src/libecryptfs/decision_graph.c:221-303 | the signature is pushed once more for every pair called "default", so once if and only if there is none or the signature is that word |
| `Common.BigEndianRoundTrip` | src/libecryptfs/main.c:750-756 | network order keeps every 32-bit word |
| `Common.BigEndianOrder` | src/libecryptfs/main.c:750-756 | words compare as their octets do, so the most significant octet comes first |
| `PacketLength.LengthRoundTrip` | src/libecryptfs/messaging.c:40-98 | parsing a written length returns it exactly if it is below 8384, whatever follows it |
| `PacketLength.AcceptedPrefixIsWritten` | src/libecryptfs/messaging.c:69-98 | an accepted prefix is the one written for its size, so sizes and prefixes correspond one to one |
| `PacketLength.LengthOrder` | src/libecryptfs/messaging.c:40-98 | sizes compare as their prefixes do |
| `PacketLength.StandardExamples` | src/libecryptfs/messaging.c:40-98 | the examples of section 4.2.3 of RFC 4880: 100 is 64 and 1723 is C5 FB, in hex |
| `PacketLength.WritePacketLength` | src/libecryptfs/messaging.c:40-58 | the octets in the buffer, and only those; an error from 65536 on |
| `PacketLength.ParsePacketLength` | src/libecryptfs/messaging.c:69-98 | size and octets of the prefix in the buffer, or the error |
| `Packets.RequestRoundTrip` | src/libecryptfs/packets.c:255-300 | a request is parsed back to its signature and key whatever follows it in memory |
| `Packets.RequestOctets` | src/libecryptfs/packets.c:255-300 | tag, length and signature, length and key |
| `Packets.ServedIff` | src/libecryptfs/packets.c:55-167 | for every result and maximum: a reply with key k exactly if the module tells a nonzero size and delivers k within the maximum, a refusal exactly for no size, a zero size or no key, and the daemon's death exactly for an oversize key |
| `Packets.CallModule` | src/libecryptfs/packets.c:55-167 | the key that `ServedIff` determines, or which of the module's refusals; the key block is left freed exactly if the result is oversize |
| `Packets.AnswerTo` | src/libecryptfs/packets.c:255-370 | tag 64 and 66 are answered with tag 65 and 67 exactly unless the module's result is oversize, which kills the daemon; a key comes only within the maximum |
| `Packets.GoodReplyRoundTrip` | src/libecryptfs/packets.c:190-253 | a good reply decodes to its key, with or without a stray octet behind it |
| `Packets.WriteFailurePacket` | src/libecryptfs/packets.c:169-188 | two octets: tag and bad status |
| `Packets.WriteTag65Packet` | src/libecryptfs/packets.c:190-220 | for every key the module may return, the length never fails and data_len ends at the key |
| `Packets.WriteTag67Packet` | src/libecryptfs/packets.c:223-253 | the same, with data_len at most one beyond the octets written |
| `Packets.Serve` | src/libecryptfs/packets.c:311-370 | module call, reply and frees: a second free of the key exactly if it is oversize |
| `Packets.ParsePacket` | src/libecryptfs/packets.c:255-370 | the cursor walk returns the reply the request calls for, an error exactly if there is none, and dies exactly on an oversize result |
| `Miscdev.RecvAcceptsExactlyEncodings` | src/libecryptfs/miscdev.c:105-175 | a frame is accepted exactly if it is the encoding of what is returned: the declared length is the number of octets read |
| `Miscdev.FrameOctets` | src/libecryptfs/miscdev.c:55-88 | the type, the number with its most significant octet first, and a message behind its length |
| `Miscdev.SendMiscdev` | src/libecryptfs/miscdev.c:41-99 | with or without a message, the buffer filled at the running index holds type, sequence number, length and message; -EINVAL exactly from 65536 octets on |
| `Miscdev.SentIsEncoded` | src/libecryptfs/miscdev.c:55-88 | below 8384 octets that is the encoding of the frame |
| `Miscdev.RecvMiscdev` | src/libecryptfs/miscdev.c:105-175 | on a buffer partly read, returns what the octets encode, or an error |
| `Miscdev.ErrorsSinceStep` | src/libecryptfs/miscdev.c:227-273 | the running error count is the number of receive errors since the last HELO or answered request |
| `Miscdev.TaggedRequestsAreAnswered` | src/libecryptfs/packets.c:255-370 | a tag 64 or 66 request is answered, with the paired tag, if and only if the module's result is not oversize |
| `Miscdev.HostOrder` | src/libecryptfs/miscdev.c:250-267 | the size field of a message as a little-endian and as a big-endian host lays it out |
| `Miscdev.FramedRequestIsServed` | src/libecryptfs/miscdev.c:250-267 | a framed request reaches the key module of its signature with its key, and the answer carries that module's result |
| `Miscdev.FramedRequestIsAnswered` | src/libecryptfs/packets.c:255-370 | for a framed request of tag 0x40 or 0x42, unless the module delivers more than 64 or 512 octets: the response frame carries 0x41 or 0x43, a zero, the length of the module's key and its very octets, and decodes to them; or the tag and 255 |
| `Miscdev.ResponseSize` | src/libecryptfs/miscdev.c:63-88 | every response frame has at most 531 octets |
| `Miscdev.HandleEvent` | src/libecryptfs/miscdev.c:227-273 | one turn of the loop: error count, message block, stop and response; a receive error frees the block of the last frame again |
| `Miscdev.RunDaemon` | src/libecryptfs/miscdev.c:211-277 | on every finite stream: each answered request gets exactly one response, in order, with its own sequence number and index; the loop ends exactly at the first QUIT, ninth error since the last reset, or double free |
| `Miscdev.NoDoubleFreeIff` | src/libecryptfs/miscdev.c:211-277 | for every stream, no block is freed twice if and only if, before the first QUIT or ninth error, no receive error follows an accepted frame and no module result is oversize |
| `Miscdev.EndsAsIntended` | src/libecryptfs/miscdev.c:227-249 | without a double free the loop ends exactly with a QUIT or the ninth error |
| `Miscdev.ControlFrames` | src/libecryptfs/miscdev.c:240-249 | a frame of type 100 clears the error count and goes on, one of type 101 ends the loop with 0 |
| `Miscdev.NineFailures` | src/libecryptfs/miscdev.c:227-239 | when every read fails the loop stops exactly from the ninth failure on, with -5 |
| `Miscdev.HeloThenFailedRead` | src/libecryptfs/miscdev.c:227-273 | a HELO and then a failed read frees a block twice |
| `SidTable.SharedSegment.FindPidForSid` | src/libecryptfs/main.c:570-622 | the octets yield the first match of the list, or zero |
| `SidTable.SlotOctets` | src/libecryptfs/main.c:586-610 | slot k is eight octets: the session, then the process, most significant octets first |
| `SidTable.SharedSegment.RemovePidForSid` | src/libecryptfs/main.c:624-694 | deletes exactly the first match, keeps the order, zeros behind, nothing outside the segment |
| `SidTable.SharedSegment.AddSidPidPair` | src/libecryptfs/main.c:696-765 | appends, or -ENOMEM with 512 pairs; which octets behind the segment are cleared |
| `SidTable.AppendRepresents` | src/libecryptfs/main.c:748-758 | writing eight octets at the terminator represents the longer list |
| `SidTable.ShiftRepresents` | src/libecryptfs/main.c:670-689 | moving the rest down by a slot represents the shorter list |
| `SidTable.ClearStaysInside` | src/libecryptfs/main.c:757-758 | the clear stays in the segment exactly up to 255 pairs or for the last slot |
| `SidTable.Execute` | src/libecryptfs/main.c:570-765 | every sequence of steps on the octets is the same sequence on the list, every find gets the first match of its time, and behind the segment exactly what the adds reach is cleared |
| `SidTable.ReachesBehindIff` | src/libecryptfs/main.c:757-758 | over every sequence nothing behind the segment is written if and only if no add meets 255 to 510 pairs |
| `SidTable.SessionsAreIndependentQueues` | src/libecryptfs/main.c:570-765 | over every sequence of steps within capacity, each session sees the queue its own steps make, and a find returns its front |
| `TicketPool.Pool.constructor` | src/key_mod/ecryptfs_key_mod_tspi.c:571-605 | ten unconnected tickets on the free list, counters right |
| `TicketPool.Pool.FindConnected` | src/key_mod/ecryptfs_key_mod_tspi.c:240-252 | the first connected free ticket |
| `TicketPool.Pool.LeastPending` | src/key_mod/ecryptfs_key_mod_tspi.c:219-236 | a used ticket with the fewest waiters |
| `TicketPool.Pool.Grab` | src/key_mod/ecryptfs_key_mod_tspi.c:210-301 | the linked lists, counters and flags after a grab, a failed connect (no change) or a wait, and the NULL ticket exactly if both lists are empty |
| `TicketPool.Pool.ReleaseTicket` | src/key_mod/ecryptfs_key_mod_tspi.c:303-317 | the release of any ticket, on the used list or cut off it: heads, links and counters |
| `TicketPool.Pool.Release` | src/key_mod/ecryptfs_key_mod_tspi.c:303-317 | the linked lists and counters after the release of any used ticket |
| `TicketPool.Pool.ReleaseInGrabOrder` | src/key_mod/ecryptfs_key_mod_tspi.c:303-317 | two tickets released in the order they were grabbed leave the used list sharing the tail of the free list, with both counters off by two |
| `TicketPool.GrabKeepsAccount` | src/key_mod/ecryptfs_key_mod_tspi.c:239-292 | from an accounted pool a grab takes the head of the free list and leaves the pool accounted |
| `TicketPool.ReleaseKeepsAccountIffLast` | src/key_mod/ecryptfs_key_mod_tspi.c:303-317 | a release keeps the pool accounted if and only if the ticket was grabbed last |
| `TicketPool.RunConsistent` | src/key_mod/ecryptfs_key_mod_tspi.c:210-317 | over every run of grabs and last-in-first-out releases the lists partition the ten tickets, counters are lengths, connected tickets are a prefix of the free list, and as many are connected as were ever outstanding |
| `TicketPool.LegalIffRoom` | src/key_mod/ecryptfs_key_mod_tspi.c:210-317 | in such a run a ticket is free exactly while fewer than ten are out |
| `TicketPool.Execute` | src/key_mod/ecryptfs_key_mod_tspi.c:210-317 | such a run on the linked lists is the abstract run and keeps all of this |
| `MountCounter.WrittenIsReadBack` | src/utils/mount.ecryptfs_private.c:426-450 | a count written over any longer text is read back |
| `MountCounter.StaleOctetsStay` | src/utils/mount.ecryptfs_private.c:446-448 | what a longer text held behind the new one stays in the file |
| `MountCounter.ZeroIffBelowMax` | src/utils/mount.ecryptfs_private.c:464-467 | forcing gives zero exactly below MAXINT |
| `MountCounter.CounterFile.BumpCounter` | src/utils/mount.ecryptfs_private.c:426-450 | the new count and the new text, stale octets included |
| `MountCounter.CounterFile.Gate` | src/utils/mount.ecryptfs_private.c:624-674 | the text follows the abstract count, and only an unforced unmount with sessions left is turned away |
| `MountCounter.Execute` | src/utils/mount.ecryptfs_private.c:624-674 | every serialised run on the text is the abstract run |
| `MountCounter.GatesAre` | src/utils/mount.ecryptfs_private.c:624-674 | mounts and forced unmounts always go on, an unforced unmount exactly if the count after it is zero |
| `MountCounter.CountIsDifference` | src/utils/mount.ecryptfs_private.c:426-467 | while unmounts never outnumber mounts the count is their difference |
| `MountCounter.BalancedGate` | src/utils/mount.ecryptfs_private.c:666-674 | an unforced unmount then passes if and only if the difference reaches zero |
| `MountCounter.ForcedRestarts` | src/utils/mount.ecryptfs_private.c:669-670 | a forced unmount restarts the count |
| `MountCounter.DifferenceSinceForced` | src/utils/mount.ecryptfs_private.c:624-674 | for any run up to the last forced unmount, with the count below MAXINT there, the count after it is the difference since, and an unforced unmount passes if and only if that reaches zero |
| `MountCounter.CountIsLargestSuffix` | src/utils/mount.ecryptfs_private.c:426-462 | for every run, balanced or not, the count is the largest difference over an end of the run |
| `Extents.AddressInGeneral` | src/utils/test.c:45-69 | where any extent lies, with the gap that each page leaves |
| `Extents.ExactIffDivides` | src/utils/test.c:45-69 | the address is header plus extents before, for all extents, if and only if the extent size divides page size and header |
| `Extents.LowerSizeEndsLastExtent` | src/utils/test.c:368-385 | the lower size is where the last extent ends |
| `Extents.LowerSizeIsLeast` | src/utils/test.c:368-385 | the lower size is the header and the least number of whole extents that hold the upper file |
| `Extents.ExtentOfPage` | src/utils/test.c:304-310 | the extents of a page are on one lower page, then on the next |
| `Extents.EncryptPage` | src/utils/test.c:271-349 | the writes and extents of the page-state loop, and that its closing assertion holds |
| `Extents.WritesTilePage` | src/utils/test.c:307-344 | at most two writes, which tile exactly the page's lower range |
| `Extents.EncryptsInPlace` | src/utils/test.c:332-337 | every extent goes to its place in that range |
| `OptionParser.PairList.AppendPair` | src/libecryptfs/cmd_ln_parser.c:285-330 | the scan for '=' splits at the last one of what snprintf left |
| `OptionParser.PairList.ProcessCommaTok` | src/libecryptfs/cmd_ln_parser.c:239-333 | the recursion on the parts of a key group ends on the number of colons and appends the specified pairs |
| `OptionParser.PairList.ProcessColonList` | src/libecryptfs/cmd_ln_parser.c:268-284 | the parts of a key group in order, up to the first error |
| `OptionParser.PairList.GenerateNvList` | src/libecryptfs/cmd_ln_parser.c:338-366 | the character loop appends the pairs of the split text, and gives up silently at a full buffer |
| `OptionGrammar.PairReadBackIff` | src/libecryptfs/cmd_ln_parser.c:285-330 | a printed pair is read back if and only if its value holds no '=' |
| `OptionGrammar.GroupIsProcessed` | src/libecryptfs/cmd_ln_parser.c:261-284 | a printed key group is flattened |
| `OptionGrammar.ParseOfPrint` | README:126-141 | parsing the printed form of any well-formed attribute list returns its flattened pairs in order if and only if no value holds an '=', and in any case one pair each, split at the last one |
| `OptionGrammar.WordIsRead` | src/libecryptfs/cmd_ln_parser.c:299-330 | a word without "=" is read as that name without a value |
| `OptionGrammar.ParseStops` | src/libecryptfs/cmd_ln_parser.c:338-366 | behind well-formed attributes, a token that starts with "=" or ":" ends the parse with an error and one of 128 or more characters without; the pairs before it are kept |
| `PairUnion.OverwriteMatches` | src/libecryptfs/cmd_ln_parser.c:118-136 | every entry of the name is overwritten, none other, and whether there was one |
| `PairUnion.ListUnion` | src/libecryptfs/cmd_ln_parser.c:83-193 | the merge loop on the list is the fold of single merges |
| `PairUnion.UnionIs` | src/libecryptfs/cmd_ln_parser.c:83-193 | closed form: old entries in place with the last source value of a name that may not be duplicated, then every duplicable source entry and the first of each new name, in order |
| `PairUnion.CommandLineWins` | src/libecryptfs/cmd_ln_parser.c:83-193 | a node asking for such a name then finds the last value of the command line |
| `PairUnion.NullTextIsMissing` | src/libecryptfs/decision_graph.c:346-354 | the "(null)" a missing value becomes is read as missing |
| `StripOptions.ParameterShouldBeScrubbed` | src/utils/mount.ecryptfs.c:163-181 | the table loops decide exactly: a scrub prefix and no protected one |
| `StripOptions.ScrubbedIff` | src/utils/mount.ecryptfs.c:138-181 | an option is scrubbed if and only if it begins with one of the sixteen listed texts and not with "xattr_user" |
| `StripOptions.ListedAreScrubbed` | src/utils/mount.ecryptfs.c:138-181 | each listed text is scrubbed with whatever follows it; "xattr" unless "_user" does |
| `StripOptions.OthersAreKept` | src/utils/mount.ecryptfs.c:138-181 | "xattr_user", "ecryptfs_sig=" and "ecryptfs_cipher=" are kept with whatever follows them, and "rw" |
| `StripOptions.FilterInto` | src/utils/mount.ecryptfs.c:209-228 | the cutting loop collects the kept options, comma-joined, within the buffer |
| `StripOptions.StripUserlandOpts` | src/utils/mount.ecryptfs.c:190-232 | the whole buffer afterwards: the join of the kept options, NULs, and what was behind |
| `StripOptions.StrippedSplits` | src/utils/mount.ecryptfs.c:138-232 | the kernel reads exactly the kept options in order, empty ones included |
| `StripOptions.StrippedList` | src/utils/mount.ecryptfs.c:190-232 | a list of options becomes the list of those for the kernel, in order |
| `StripOptions.StrippedExample` | src/utils/mount.ecryptfs.c:190-232 | of a key, "rw", a verbosity and a signature, with any texts, "rw" and the signature are left |
| `StripOptions.StrippedIsNoLonger` | src/utils/mount.ecryptfs.c:190-232 | never longer than the input |
| `StripOptions.StripIsIdempotent` | src/utils/mount.ecryptfs.c:190-232 | stripping twice is stripping once |
| `StripOptions.StripChangesIff` | src/utils/mount.ecryptfs.c:190-232 | the string is unchanged if and only if nothing is to be scrubbed |
| `PassphraseWrapping.ToHex` | src/libecryptfs/main.c:54-61 | the hex text and its NUL in the buffer, nothing else |
| `PassphraseWrapping.HexIsLower` | src/libecryptfs/main.c:54-61 | two characters for each byte, found in "0123456789abcdef" at its high and low half |
| `PassphraseWrapping.FromHex` | src/libecryptfs/main.c:63-73 | the bytes read from hex text, odd characters included |
| `PassphraseWrapping.DigitsAreRead` | src/libecryptfs/main.c:63-73 | two hex digits of either case are read as their number |
| `PassphraseWrapping.OddPairsAreRead` | src/libecryptfs/main.c:63-73 | of other pairs, a leading digit counts alone, a digit behind a space or sign counts, negated behind "-", and the rest is zero |
| `PassphraseWrapping.HexRoundTrip` | src/libecryptfs/main.c:54-73 | hex text is read back to its bytes |
| `PassphraseWrapping.HashRepeatedly` | src/libecryptfs/main.c:233-242 | the counting loop is the n-fold iterate of the hash |
| `PassphraseWrapping.GeneratePassphraseSig` | src/libecryptfs/main.c:210-249 | the key is the 65536th hash of salt and passphrase, the text the lower-case hex of the first eight bytes of the 65537th; -EINVAL above 64 bytes |
| `PassphraseWrapping.KeyAndSignature` | src/libecryptfs/main.c:210-249 | the same of the specification: a chain of 65536 hashes ends in the key, and one more names it |
| `PassphraseWrapping.PadPassphrase` | src/libecryptfs/key_management.c:329-337 | the cleared buffer holds the passphrase and zeros up to a whole block |
| `PassphraseWrapping.WrappedFile.WrapPassphrase` | src/libecryptfs/key_management.c:288-428 | return code and file contents in every case, the empty passphrase included |
| `PassphraseWrapping.WrappedFile.UnwrapPassphrase` | src/libecryptfs/key_management.c:434-561 | return code and the caller's buffer in every case, for any file |
| `PassphraseWrapping.WrappedFile.Rewrap` | src/utils/ecryptfs_rewrap_passphrase.c:79-108 | unwrap with the old, wrap with the new passphrase; nothing is tried with an overlong one |
| `PassphraseWrapping.BlockwiseRoundTrip` | src/libecryptfs/key_management.c:353-359 | blockwise decryption undoes blockwise encryption |
| `PassphraseWrapping.WrapRoundTrip` | src/libecryptfs/key_management.c:288-561 | wrapping succeeds exactly for 1 to 64 bytes (and a wrapping passphrase of at most 64), and unwrapping then returns the passphrase |
| `PassphraseWrapping.WrappedLayout` | src/libecryptfs/key_management.c:288-428 | a written file is the 16 characters that name the key, and then block by block the encryption, under the first 16 bytes of the key, of the passphrase filled up with zeros |
| `PassphraseWrapping.EmptyPassphraseIsLost` | src/libecryptfs/key_management.c:393-423 | wrapping the empty passphrase fails after replacing the file by a bare signature, which no salt and passphrase ever unwrap |
| `PassphraseWrapping.OpensIffSameSignature` | src/libecryptfs/key_management.c:486-492 | a wrapped file opens if and only if the signatures agree, and with the same key yields the passphrase |
| `PassphraseWrapping.RewrapsPreserve` | src/utils/ecryptfs_rewrap_passphrase.c:79-108 | any sequence of rewraps, right or wrong, keeps the passphrase, under the wrapping passphrase of the last that took effect |
| `PassphraseWrapping.ChainHolds` | src/utils/ecryptfs_rewrap_passphrase.c:79-108 | a chain in which each rewrap knows the last passphrase needs no assumption on signatures and ends under the last new one |
| `PassphraseWrapping.ExecuteRewraps` | src/utils/ecryptfs_rewrap_passphrase.c:79-108 | the program run on the file once per attempt is that sequence |

## Left out

- Memory allocation failures, leaks, and failing writes, keyring reads and cipher calls; of freeing, only the daemon's messages and keys and the context of a linear subgraph (the suggested value of a node, which can also be freed twice, is not followed).
- Semaphores and mutexes: each operation on the session table, and each grab or release of a ticket, is one atomic step; failures to attach or detach the segment are not modelled.
- The wake-up of a process that waits for a ticket.
- Machine widths: counts, sizes and page numbers are unbounded, except where a byte, a 32-bit word or MAXINT matters.
- Terminal echo, prompt texts, logging and the dump functions.
- Pairs without a name: the parser makes none, the C code would follow a NULL pointer, and the model passes over them.
- Pair flags other than PROCESSED, and child pairs in the merge of lists.
- The octet behind the token buffer that is copied, and never read, for a token of exactly 128 characters.
- set_exit_param_node_for_arr and the non-recursive form of exit patching; ecryptfs_insert_params and the rest of the graph's assembly.
- The callbacks of a linear subgraph and of the filename nodes are modelled on values, not as edits of heap nodes: aliasing between their structures is not captured.
- The callbacks inside the subgraphs that key modules bring along.
- SidTable.Execute: takes the 4096 octets behind the segment to be writable; an add that overruns the segment may instead fault there.
- FilenameCrypto.FilenameCryptoSettles: interactive runs without a pair called "default" only, with an ecryptfs_sig already pushed and no signature text "NULL"; a bare enable flag without prompting is not covered.
- DecisionEngine.Engine.EvalAcyclicTree: termination is stated for acyclic graphs whose callbacks do not rewire edges (and, by FilenameCrypto.FilenameCryptoSettles, for the filename pair); re-entry to key selection for another key, which depends on values left on static nodes, is not covered.
- The remaining option callbacks (hmac, passthrough, xattr, cipher and key size): easier cases of pushing one option.
- The netlink and procfs transports, key module registration, the gpg, pkcs11 and OpenSSL modules, blob serialisers, UUID parsing, header stat parsing and the signature cache.
- PAM entry points, mount and umount calls, mtab updates, privilege changes, and the bindings.
