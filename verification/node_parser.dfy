/**
 The parser that walks a dialogue graph at run time: it picks the start node,
 renders the active node into the dialogue box, follows the response the
 player clicks, and ends or refreshes the dialogue on request.

 The Unity side is reduced to a value: the box's visibility and a view holding
 the speaker text, the prompt text and the response buttons in order.
 Translation is the parameter `tr`; coroutines are taken as running at once.
 */
module NodeParser {
  import opened Wrappers
  import opened DialogueNodes
  import opened DialogueGraphs

  /** Translation of a localization key in the current language. */
  type Translate = string -> string

  /** A response button: its text and the response index its click reports. */
  datatype Button = Button(text: string, responseIndex: nat)

  /** What the dialogue box shows. */
  datatype View = View(speakerText: string, promptText: string, buttons: seq<Button>)

  /**
   `dialogueGraphCount` is the length of the graph array, None when the array is
   null: start-up only tests it for emptiness. The graph the parser walks is
   `currentDialogueGraph`.
   */
  datatype Parser = Parser(
    dialogueGraphCount: Option<nat>,
    currentDialogueGraph: Graph,
    activeNode: Option<NodeIndex>,
    boxVisible: bool,
    view: View)

  /** The graph is valid and the active node, if any, is one of its nodes. */
  predicate ValidParser(p: Parser) {
    ValidGraph(p.currentDialogueGraph) && InRange(p.activeNode, |p.currentDialogueGraph.nodes|)
  }

  /** The buttons for `keys[from..]`, one per key in order, each bound to its key's index. */
  function ButtonsFrom(keys: seq<string>, from: nat, tr: Translate): (bs: seq<Button>)
    requires from <= |keys|
    ensures |bs| == |keys| - from
    ensures forall k :: 0 <= k < |bs| ==>
              bs[k].text == tr(keys[from + k]) && bs[k].responseIndex == from + k
    decreases |keys| - from
  {
    if from == |keys| then []
    else [Button(tr(keys[from]), from)] + ButtonsFrom(keys, from + 1, tr)
  }

  /**
   The box contents for node `n`: the speaker name untranslated, the prompt
   translated, and exactly one button per response key, in order, labelled
   with the translated key and bound to its index. No earlier button survives.
   */
  function Render(n: Node, tr: Translate): (v: View)
    ensures v.speakerText == n.speakerName
    ensures v.promptText == tr(n.promptKey)
    ensures |v.buttons| == |n.responseKeys|
    ensures forall i :: 0 <= i < |v.buttons| ==>
              v.buttons[i].text == tr(n.responseKeys[i]) && v.buttons[i].responseIndex == i
  {
    View(n.speakerName, tr(n.promptKey), ButtonsFrom(n.responseKeys, 0, tr))
  }

  /** The box is open on node `k`, rendered in language `tr`. */
  predicate Displays(p: Parser, k: NodeIndex, tr: Translate)
    requires ValidParser(p)
  {
    && p.activeNode == Some(k)
    && k < |p.currentDialogueGraph.nodes|
    && p.boxVisible
    && p.view == Render(p.currentDialogueGraph.nodes[k], tr)
  }

  /** The parser's graph, active node and graph array length are those of `q`. */
  predicate SameCursors(p: Parser, q: Parser) {
    && p.dialogueGraphCount == q.dialogueGraphCount
    && p.currentDialogueGraph == q.currentDialogueGraph
    && p.activeNode == q.activeNode
  }

  /**
   Renders the active node and shows the box. Without an active node the first
   dereference of `activeNode`, reading the speaker name, fails and nothing
   changes.
   */
  function UpdateDialogueBox(p: Parser, tr: Translate): (r: Parser)
    requires ValidParser(p)
    ensures ValidParser(r) && SameCursors(r, p)
    ensures p.activeNode.None? ==> r == p
    ensures p.activeNode.Some? ==> Displays(r, p.activeNode.value, tr)
  {
    match p.activeNode
    case None => p
    case Some(k) => p.(boxVisible := true, view := Render(p.currentDialogueGraph.nodes[k], tr))
  }

  /**
   Makes the graph's current node the active node and displays it. A null
   current node changes nothing.
   */
  function ParseNode(p: Parser, tr: Translate): (r: Parser)
    requires ValidParser(p)
    ensures ValidParser(r)
    ensures r.currentDialogueGraph == p.currentDialogueGraph && r.dialogueGraphCount == p.dialogueGraphCount
    ensures p.currentDialogueGraph.current.None? ==> r == p
    ensures p.currentDialogueGraph.current.Some? ==> Displays(r, p.currentDialogueGraph.current.value, tr)
  {
    match p.currentDialogueGraph.current
    case None => p
    case Some(k) => UpdateDialogueBox(p.(activeNode := Some(k)), tr)
  }

  /**
   Sets the graph's current node to the first node with an entry port, then
   displays it. An empty node list leaves the current node as it was.
   */
  function InitializeGraph(p: Parser, tr: Translate): (r: Parser)
    requires ValidParser(p)
    ensures ValidParser(r) && r.dialogueGraphCount == p.dialogueGraphCount
    ensures |p.currentDialogueGraph.nodes| > 0 ==>
              r.currentDialogueGraph == p.currentDialogueGraph.(current := Some(0)) && Displays(r, 0, tr)
    ensures |p.currentDialogueGraph.nodes| == 0 ==> r == p
  {
    var g := p.currentDialogueGraph;
    FirstEntryIsFirstNode(g.nodes);
    var g' := match FirstEntry(g.nodes)
              case Some(k) => g.(current := Some(k))
              case None => g;
    if g'.current.Some? then ParseNode(p.(currentDialogueGraph := g'), tr)
    else p.(currentDialogueGraph := g')
  }

  /** Whether the graph array is null or empty. */
  predicate NoGraphs(p: Parser) {
    p.dialogueGraphCount.None? || p.dialogueGraphCount.value == 0
  }

  /**
   Start-up: with a null or empty graph array nothing happens; otherwise
   the current graph is initialised. The array is only tested for emptiness,
   and `initNode` is not consulted.
   */
  function Start(p: Parser, tr: Translate): (r: Parser)
    requires ValidParser(p)
    ensures ValidParser(r) && r.dialogueGraphCount == p.dialogueGraphCount
    ensures NoGraphs(p) ==> r == p
    ensures !NoGraphs(p) && |p.currentDialogueGraph.nodes| > 0 ==>
              r.currentDialogueGraph == p.currentDialogueGraph.(current := Some(0)) && Displays(r, 0, tr)
    ensures !NoGraphs(p) && |p.currentDialogueGraph.nodes| == 0 ==> r == p
  {
    if NoGraphs(p) then p else InitializeGraph(p, tr)
  }

  /** The node response `i` of `n` is connected to, if its port exists and is connected. */
  function Target(n: Node, i: int): (r: Option<NodeIndex>)
    requires WellFormed(n)
    ensures r.Some? <==> 0 <= i < |n.responseKeys| && n.links[i].Some?
    ensures r.Some? ==> r == n.links[i]
  {
    var port := GetPort(n, ResponseKey(i));
    if port.Some? && port.value.IsConnected() then port.value.link else None
  }

  /**
   The player clicked response `i`. A connected response makes its successor
   the graph's current node and displays it. A missing or unconnected one only
   hides the box: the active node and the current node stay. Without an active
   node the port lookup on `activeNode` fails and nothing changes.
   */
  function OnResponseClicked(p: Parser, i: int, tr: Translate): (r: Parser)
    requires ValidParser(p)
    ensures ValidParser(r) && r.dialogueGraphCount == p.dialogueGraphCount
    ensures r.currentDialogueGraph.nodes == p.currentDialogueGraph.nodes
    ensures p.activeNode.None? ==> r == p
    ensures p.activeNode.Some? ==>
              var n := p.currentDialogueGraph.nodes[p.activeNode.value];
              if 0 <= i < |n.responseKeys| && n.links[i].Some? then
                r.currentDialogueGraph == p.currentDialogueGraph.(current := n.links[i])
                && Displays(r, n.links[i].value, tr)
              else
                r == p.(boxVisible := false)
  {
    match p.activeNode
    case None => p
    case Some(a) =>
      var g := p.currentDialogueGraph;
      match Target(g.nodes[a], i)
      case Some(j) => ParseNode(p.(currentDialogueGraph := g.(current := Some(j))), tr)
      case None => p.(boxVisible := false)
  }

  /**
   Hides the box, removes every button and forgets the active node. The texts
   and the graph's current node are left as they were.
   */
  function EndDialogue(p: Parser): (r: Parser)
    ensures ValidParser(p) ==> ValidParser(r)
    ensures !r.boxVisible && r.view.buttons == [] && r.activeNode.None?
    ensures r.view.speakerText == p.view.speakerText && r.view.promptText == p.view.promptText
    ensures r.currentDialogueGraph == p.currentDialogueGraph && r.dialogueGraphCount == p.dialogueGraphCount
  {
    p.(boxVisible := false, view := p.view.(buttons := []), activeNode := None)
  }

  /** Re-renders the active node, as on a language change. */
  function RefreshUI(p: Parser, tr: Translate): (r: Parser)
    requires ValidParser(p)
    ensures ValidParser(r) && SameCursors(r, p)
    ensures p.activeNode.None? ==> r == p
    ensures p.activeNode.Some? ==> Displays(r, p.activeNode.value, tr)
  {
    UpdateDialogueBox(p, tr)
  }

  /** Refreshing twice in one language gives the same state as refreshing once. */
  lemma RefreshIdempotent(p: Parser, tr: Translate)
    requires ValidParser(p)
    ensures RefreshUI(RefreshUI(p, tr), tr) == RefreshUI(p, tr)
  {
  }

  /** Every button shown for the active node names a response port that exists. */
  lemma ButtonsNameExistingPorts(p: Parser, tr: Translate, b: Button)
    requires ValidParser(p) && p.activeNode.Some? && Displays(p, p.activeNode.value, tr)
    requires b in p.view.buttons
    ensures GetPort(p.currentDialogueGraph.nodes[p.activeNode.value], ResponseKey(b.responseIndex)).Some?
  {
    var n := p.currentDialogueGraph.nodes[p.activeNode.value];
    var i :| 0 <= i < |p.view.buttons| && p.view.buttons[i] == b;
    assert b.responseIndex == i < |n.responseKeys|;
  }
}
