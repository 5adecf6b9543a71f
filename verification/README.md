# Dialogue graph traversal

A Dafny model of the run-time dialogue walker of a Unity dialogue tool. A
dialogue graph is a list of dialogue nodes. Each node has a speaker name, a
prompt localization key and an ordered list of response keys. Each response
has an output port that links to at most one successor node. The parser picks
the start node, renders the active node into a dialogue box, follows the
response the player clicks, and ends or refreshes the dialogue on request.

Modules, one per source file plus one for runs:

- `Wrappers` — `Option`, standing for nullable references.
- `DialogueNodes` (`Assets/Scripts/Dialogue/DialogueNode.cs`) — the node
  record. Port lookup by name: the `entry` input and one `responseKeys i`
  output per response key. Also `GetString` and `GetValue`. xNode's
  string-named dynamic ports become a `PortName` datatype. A successor is an
  index into the graph's node sequence.
- `DialogueGraphs` (`Assets/Scripts/Dialogue/DialogueGraph.cs`) — the graph
  with its `start`, `current` and `initNode` cursors, `Start`, and the scan for
  the first node that has an entry port.
- `NodeParser` (`Assets/Scripts/Dialogue/NodeParser.cs`) — the parser state:
  the graph array's length (only ever tested for emptiness), the current
  graph, the active node, the box's visibility, and
  a view holding the speaker text, the prompt text and the buttons. Its
  operations are `Start`, `InitializeGraph`, `ParseNode`, `UpdateDialogueBox`,
  `OnResponseClicked`, `EndDialogue` and `RefreshUI`, each a pure function
  from state to state.
- `DialogueSession` — runs made of clicks, ends and language changes. It
  proves that an invariant tying the parser to its graph holds across every
  run.

Translation (`LocalizationManager.Instance.GetTranslation`) is the parameter
`tr: string -> string`. A language change is an event that carries the new
`tr` and calls `RefreshUI` at once, as the `OnLanguageChanged` subscription
does.

Behaviour kept exactly as the code has it:

- The speaker name is shown untranslated. Only the prompt and the response
  keys go through `tr`.
- The start node is the first node in the list that has an `entry` port.
  Every dialogue node declares one, so this is always the first node, whether
  or not anything connects to it. `initNode` is never consulted.
- A graph with no start node does not end a session. Start-up just displays
  nothing.
- Clicking a missing or unconnected response only hides the box. The active
  node and the graph's current node stay, so a later language change opens the
  box again on the same node (`DanglingThenLanguageChangeReopens`).
- `EndDialogue` clears the active node but not the graph's `current`. It
  removes the buttons but leaves the speaker and prompt texts.
- With no active node, `OnResponseClicked` fails at its first dereference of
  `activeNode`, the port lookup at NodeParser.cs line 95, after clearing
  `parserCoroutine`. `UpdateDialogueBox` fails at line 128, reading the speaker
  name. The model leaves the state unchanged there, as the aborted event
  handler does.

## Model

| member | source | states |
|---|---|---|
| DialogueNodes.GetPort | Assets/Scripts/Dialogue/DialogueNode.cs:11-13 | the `entry` port always exists; a response port exists exactly for indices 0 ≤ i < \|responseKeys\|, and it is an output carrying that response's single link |
| DialogueGraphs.EveryNodeHasEntry | Assets/Scripts/Dialogue/DialogueNode.cs:11 | every node of any node list passes the scan's entry-port test; the test depends on neither the node's links nor whether anything connects to it |
| DialogueNodes.GetString | Assets/Scripts/Dialogue/DialogueNode.cs:17-20 | needs at least one response key; the result starts with "DialogueNode/", then holds the speaker, '/', the prompt key, '/', and ends with the first response key; its length is the sum of the parts |
| DialogueNodes.GetStringIgnoresLaterResponses | Assets/Scripts/Dialogue/DialogueNode.cs:19 | two nodes that agree on speaker, prompt and first response key have the same GetString, whatever their other responses and links |
| DialogueNodes.GetValue | Assets/Scripts/Dialogue/DialogueNode.cs:22-25 | the value of every port is null |
| DialogueGraphs.Start | Assets/Scripts/Dialogue/DialogueGraph.cs:14-18 | afterwards `start` and `current` both equal `initNode`; `initNode` and the node list are unchanged; graph validity is kept |
| DialogueGraphs.StartIdempotent | Assets/Scripts/Dialogue/DialogueGraph.cs:14-18 | calling Start twice gives the same graph as calling it once |
| DialogueGraphs.FirstFrom | Assets/Scripts/Dialogue/NodeParser.cs:63-70 | the scan returns the first index, in list order, whose node passes the test; no earlier node passes; it returns none exactly when no node passes |
| DialogueGraphs.FirstEntryIsFirstNode | Assets/Scripts/Dialogue/NodeParser.cs:63-70 | with the entry-port test, a non-empty node list always yields node 0 and an empty list yields none |
| NodeParser.ButtonsFrom | Assets/Scripts/Dialogue/NodeParser.cs:148-176 | one button per remaining response key, in order; button k shows the translated key and is bound to response index from+k |
| NodeParser.Render | Assets/Scripts/Dialogue/NodeParser.cs:125-180 | the view shows the raw speaker name and the translated prompt; it has exactly \|responseKeys\| buttons, and button i shows tr(responseKeys[i]) and is bound to i, so no earlier button remains |
| NodeParser.UpdateDialogueBox | Assets/Scripts/Dialogue/NodeParser.cs:125-180 | with an active node, the box becomes visible and shows that node's rendering, and the graph and active node are unchanged; with none, nothing changes |
| NodeParser.ParseNode | Assets/Scripts/Dialogue/NodeParser.cs:108-123 | a null current node changes nothing; otherwise the current node becomes the active node and is displayed; the graph is untouched |
| NodeParser.InitializeGraph | Assets/Scripts/Dialogue/NodeParser.cs:59-85 | with nodes, `current` becomes node 0 and node 0 is displayed, and nothing else in the graph changes; with no nodes, nothing changes |
| NodeParser.Start | Assets/Scripts/Dialogue/NodeParser.cs:24-33 | a null or empty graph array changes nothing; otherwise it behaves as InitializeGraph on the current graph, with node 0 displayed regardless of `initNode` |
| NodeParser.Target | Assets/Scripts/Dialogue/NodeParser.cs:95-96 | a response has a target exactly when its port exists and is connected, and the target is that port's link |
| NodeParser.OnResponseClicked | Assets/Scripts/Dialogue/NodeParser.cs:87-106 | a connected response makes its successor the graph's current node and displays it, and the new active node is a node of the graph; a missing or unconnected response only hides the box; with no active node nothing changes |
| NodeParser.EndDialogue | Assets/Scripts/Dialogue/NodeParser.cs:182-196 | the box is hidden, no buttons remain and there is no active node; the texts and the graph, including `current`, are unchanged |
| NodeParser.RefreshUI | Assets/Scripts/Dialogue/NodeParser.cs:198-201 | re-renders the active node in the given language without changing the active node or the graph; with no active node, nothing changes |
| NodeParser.RefreshIdempotent | Assets/Scripts/Dialogue/NodeParser.cs:198-201 | refreshing twice in one language gives the same state as refreshing once |
| NodeParser.ButtonsNameExistingPorts | Assets/Scripts/Dialogue/NodeParser.cs:148-167 | every displayed button is bound to a response index whose port exists on the active node |
| DialogueSession.Step | Assets/Scripts/Dialogue/NodeParser.cs:87-201 | a click goes to OnResponseClicked, an end to EndDialogue and a language change to RefreshUI (subscribed at line 55); each keeps the parser valid: the active node stays a node of the graph |
| DialogueSession.Run | Assets/Scripts/Dialogue/NodeParser.cs:55 | handling any sequence of events keeps the parser valid |
| DialogueSession.StartIsConsistent | Assets/Scripts/Dialogue/NodeParser.cs:24-33 | after start-up, a fresh parser's active node is the graph's current node, and an open box shows that node |
| DialogueSession.StepKeepsConsistent | Assets/Scripts/Dialogue/NodeParser.cs:87-201 | each event keeps the active node equal to the graph's current node, and an open box shows the active node in the language in force |
| DialogueSession.RunKeepsConsistent | Assets/Scripts/Dialogue/NodeParser.cs:87-201 | every run keeps that consistency, in the language in force at the end of the run |
| DialogueSession.RunKeepsGraph | Assets/Scripts/Dialogue/NodeParser.cs:95-99 | a run never changes the node list, `start` or `initNode`; the current node is either the one the run began with or the target of some response link |
| DialogueGraphs.ReachesInMonotonic | Assets/Scripts/Dialogue/NodeParser.cs:95-98 | a node reachable within n response links is reachable within n + 1 |
| DialogueSession.RunFollowsLinks | Assets/Scripts/Dialogue/NodeParser.cs:95-98 | from a consistent state, after any run the current node is where the run began or is reached from it along response links, at most one link per event |
| DialogueSession.EndedIsInert | Assets/Scripts/Dialogue/NodeParser.cs:182-196 | after EndDialogue, every sequence of clicks, ends and language changes leaves the parser unchanged |
| DialogueSession.DanglingThenLanguageChangeReopens | Assets/Scripts/Dialogue/NodeParser.cs:101-105 | a dangling click hides the box but keeps the active node and the graph, and a later refresh opens the box on the same node again |
| DialogueSession.Scenario | Assets/Scripts/Dialogue/NodeParser.cs:87-106 | on a two-node graph, start-up shows node 0 with buttons tr("R1"), tr("R2"); clicking the unconnected response 1 hides the box and keeps node 0; clicking response 0 shows node 1 |
| DialogueSession.StartIgnoresEntryConnections | Assets/Scripts/Dialogue/NodeParser.cs:63-70 | on a graph where nothing links to node 0 but node 1 is linked, start-up still displays node 0: the entry port's existence, not its connection, decides |

## Left out

- Unity UI side effects are not modelled. This covers setting TextMeshPro text, creating and destroying button prefabs, enabling components, and clearing the `EventSystem` selection. Rendering is the pure `View` value. The button prefab is taken to carry a `Button` and a text component.
- Coroutines are not modelled: `StartCoroutine`, `StopCoroutine`, `WaitUntil`, and the loop that waits for the localization manager before subscribing. Display happens at once.
- Enabling and disabling the component is not modelled. The subscription to language changes is taken as already in place; a language change is an event of a run.
- The localization store is not modelled: `LocalizationManager` and `LocalizationUtilities` are not part of this model. Translation is the opaque function `tr`. A null localization manager, which would make rendering fail halfway through, is not modelled.
- Logging and the try/catch in `InitializeGraph` are not modelled. All nodes are dialogue nodes, the current graph is not null, and a connected port's node is a dialogue node.
- The graph array is reduced to its length, None standing for null. Start-up only tests it for emptiness; its elements, which may alias `currentDialogueGraph`, are not modelled.
- Node references outside the graph's own node list are not modelled. Links and the `start`, `current` and `initNode` cursors are indices checked by `ValidGraph`. So a stale `current` that survives an empty node list cannot occur in the model.
- The editor GUI (`Assets/Editor/DialogueNodeEditor.cs`) is not modelled. Only the one-link-per-response rule of its Override connection type is kept, as the single `Option` link.
- `BaseNode` is folded into the single `Node` type. Its `GetNodeType` always returns null and no dialogue node overrides it.
- xNode's port storage, serialization and asset lifecycle are not modelled. Whether the entry port is connected is not stored on the port; `EntryConnected` derives it from the graph's links, a node's own links included.
- DialogueNodes.GetString: an empty response list is excluded by a precondition. `DialogueNode.GetString` indexes `responseKeys[0]` unguarded and throws an index-out-of-range exception there.
- Response ports are taken to be outputs, as the `[Output(dynamicPortList = true)]` attribute on `responseKeys` declares (DialogueNode.cs line 13). The custom node editor creates new list ports as inputs (DialogueNodeEditor.cs line 29); that direction is not modelled.
