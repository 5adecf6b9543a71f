/**
 Runs of the parser: after start-up, a sequence of player clicks, explicit
 ends and language changes. A language change calls RefreshUI synchronously,
 and later renders use the new language.
 */
module DialogueSession {
  import opened Wrappers
  import opened DialogueNodes
  import opened DialogueGraphs
  import opened NodeParser

  datatype Event =
    | Click(index: int)
    | End
    | LanguageChanged(tr: Translate)

  function Step(p: Parser, e: Event, tr: Translate): (r: Parser)
    requires ValidParser(p)
    ensures ValidParser(r)
  {
    match e
    case Click(i) => OnResponseClicked(p, i, tr)
    case End => EndDialogue(p)
    case LanguageChanged(tr') => RefreshUI(p, tr')
  }

  /** The language in force after `events`, starting from `tr`. */
  function LanguageAfter(events: seq<Event>, tr: Translate): Translate
    decreases |events|
  {
    if |events| == 0 then tr
    else LanguageAfter(events[1..], if events[0].LanguageChanged? then events[0].tr else tr)
  }

  /** The parser state after handling `events` in order, starting in language `tr`. */
  function Run(p: Parser, events: seq<Event>, tr: Translate): (r: Parser)
    requires ValidParser(p)
    ensures ValidParser(r)
    decreases |events|
  {
    if |events| == 0 then p
    else
      var tr' := if events[0].LanguageChanged? then events[0].tr else tr;
      Run(Step(p, events[0], tr), events[1..], tr')
  }

  /**
   The parser agrees with its graph: an active node is the graph's current node,
   and while the box is open it shows that node rendered in language `tr`.
   */
  predicate Consistent(p: Parser, tr: Translate) {
    && ValidParser(p)
    && (p.activeNode.Some? ==> p.currentDialogueGraph.current == p.activeNode)
    && (p.activeNode.Some? && p.boxVisible ==>
          p.view == Render(p.currentDialogueGraph.nodes[p.activeNode.value], tr))
  }

  /** A fresh parser (no active node yet) is consistent after start-up. */
  lemma StartIsConsistent(p: Parser, tr: Translate)
    requires ValidParser(p) && p.activeNode.None?
    ensures Consistent(NodeParser.Start(p, tr), tr)
  {
  }

  lemma StepKeepsConsistent(p: Parser, e: Event, tr: Translate)
    requires Consistent(p, tr)
    ensures Consistent(Step(p, e, tr), if e.LanguageChanged? then e.tr else tr)
  {
  }

  /** Every run keeps the parser consistent with its graph, in the language in force at its end. */
  lemma {:induction false} RunKeepsConsistent(p: Parser, events: seq<Event>, tr: Translate)
    requires Consistent(p, tr)
    ensures Consistent(Run(p, events, tr), LanguageAfter(events, tr))
    decreases |events|
  {
    if |events| > 0 {
      var tr' := if events[0].LanguageChanged? then events[0].tr else tr;
      StepKeepsConsistent(p, events[0], tr);
      RunKeepsConsistent(Step(p, events[0], tr), events[1..], tr');
    }
  }

  /**
   A run never edits the graph: the node list, `start` and `initNode` stay, and
   the current node is either the one the run began with or the target of some
   response link.
   */
  lemma {:induction false} RunKeepsGraph(p: Parser, events: seq<Event>, tr: Translate)
    requires ValidParser(p)
    ensures var g := Run(p, events, tr).currentDialogueGraph;
            && g.nodes == p.currentDialogueGraph.nodes
            && g.start == p.currentDialogueGraph.start
            && g.initNode == p.currentDialogueGraph.initNode
            && (g.current == p.currentDialogueGraph.current || (g.current.Some? && EntryConnected(g, g.current.value)))
    decreases |events|
  {
    if |events| > 0 {
      var tr' := if events[0].LanguageChanged? then events[0].tr else tr;
      var q := Step(p, events[0], tr);
      var g0 := p.currentDialogueGraph;
      assert q.currentDialogueGraph.nodes == g0.nodes;
      assert q.currentDialogueGraph.start == g0.start && q.currentDialogueGraph.initNode == g0.initNode;
      if q.currentDialogueGraph.current != g0.current {
        var i := events[0].index;
        var a := p.activeNode.value;
        assert g0.nodes[a].links[i] == q.currentDialogueGraph.current;
        assert EntryConnected(q.currentDialogueGraph, q.currentDialogueGraph.current.value);
      }
      RunKeepsGraph(q, events[1..], tr');
    }
  }

  /**
   Starting consistent, a run moves the current node only along response links
   of the node it leaves: afterwards the current node is the one the run began
   with, or is reached from it by at most one link per event.
   */
  lemma {:induction false} RunFollowsLinks(p: Parser, events: seq<Event>, tr: Translate)
    requires Consistent(p, tr)
    ensures var g := p.currentDialogueGraph;
            var c := Run(p, events, tr).currentDialogueGraph.current;
            || c == g.current
            || (g.current.Some? && c.Some? && ReachesIn(g.nodes, g.current.value, c.value, |events|))
    decreases |events|
  {
    if |events| > 0 {
      var tr' := if events[0].LanguageChanged? then events[0].tr else tr;
      var q := Step(p, events[0], tr);
      var nodes := p.currentDialogueGraph.nodes;
      var c := Run(p, events, tr).currentDialogueGraph.current;
      StepKeepsConsistent(p, events[0], tr);
      RunFollowsLinks(q, events[1..], tr');
      RunKeepsGraph(q, events[1..], tr');
      var n := |events[1..]|;
      if q.currentDialogueGraph.current == p.currentDialogueGraph.current {
        if c != q.currentDialogueGraph.current {
          ReachesInMonotonic(nodes, q.currentDialogueGraph.current.value, c.value, n);
        }
      } else {
        var a := p.activeNode.value;
        var i := events[0].index;
        var s := q.currentDialogueGraph.current.value;
        assert nodes[a].links[i] == Some(s);
        assert ReachesIn(nodes, s, c.value, n);
        assert ReachesIn(nodes, a, c.value, n + 1);
      }
    }
  }

  /** Once the dialogue has ended, clicks, ends and language changes leave the parser as it is. */
  lemma {:induction false} EndedIsInert(p: Parser, events: seq<Event>, tr: Translate)
    requires ValidParser(p)
    ensures Run(EndDialogue(p), events, tr) == EndDialogue(p)
    decreases |events|
  {
    if |events| > 0 {
      var tr' := if events[0].LanguageChanged? then events[0].tr else tr;
      assert Step(EndDialogue(p), events[0], tr) == EndDialogue(p);
      EndedIsInert(p, events[1..], tr');
    }
  }

  /**
   A dangling response hides the box but keeps the active node, so a later
   language change opens the box again on the same node.
   */
  lemma DanglingThenLanguageChangeReopens(p: Parser, i: int, tr: Translate, tr': Translate)
    requires ValidParser(p) && p.activeNode.Some?
    requires Target(p.currentDialogueGraph.nodes[p.activeNode.value], i).None?
    ensures var q := OnResponseClicked(p, i, tr);
            !q.boxVisible && q.activeNode == p.activeNode
            && q.currentDialogueGraph == p.currentDialogueGraph
            && Displays(RefreshUI(q, tr'), p.activeNode.value, tr')
  {
  }

  /** Node 0: two responses, the first linked to node 1, the second unconnected. Node 1: none. */
  function ScenarioGraph(): (g: Graph)
    ensures ValidGraph(g)
  {
    Graph(
      [Node("N1", "P1", ["R1", "R2"], [Some(1), None]), Node("N2", "P2", [], [])],
      None, None, None)
  }

  function ScenarioParser(): (p: Parser)
    ensures ValidParser(p)
  {
    Parser(Some(1), ScenarioGraph(), None, false, View("", "", []))
  }

  /**
   Start-up displays node 0. Clicking the unconnected second response hides the
   box and keeps node 0 active and current; clicking the first displays node 1.
   */
  lemma Scenario(tr: Translate)
    ensures var s := NodeParser.Start(ScenarioParser(), tr);
            && Displays(s, 0, tr)
            && s.view.buttons == [Button(tr("R1"), 0), Button(tr("R2"), 1)]
            && (var d := OnResponseClicked(s, 1, tr);
                !d.boxVisible && d.activeNode == Some(0) && d.currentDialogueGraph.current == Some(0))
            && (var c := OnResponseClicked(s, 0, tr);
                Displays(c, 1, tr) && c.currentDialogueGraph.current == Some(1) && c.view.buttons == [])
  {
    var s := NodeParser.Start(ScenarioParser(), tr);
    assert s.view.buttons[0] == Button(tr("R1"), 0);
    assert s.view.buttons[1] == Button(tr("R2"), 1);
  }

  /**
   The start node is chosen by the presence of its entry port, not by a
   connection: nothing links to node 0 while node 1 is linked, yet start-up
   displays node 0.
   */
  lemma StartIgnoresEntryConnections(tr: Translate)
    ensures !EntryConnected(ScenarioGraph(), 0) && EntryConnected(ScenarioGraph(), 1)
    ensures Displays(NodeParser.Start(ScenarioParser(), tr), 0, tr)
  {
    var g := ScenarioGraph();
    assert g.nodes[0].links[0] == Some(1);
    forall i, j | 0 <= i < |g.nodes| && 0 <= j < |g.nodes[i].links|
      ensures g.nodes[i].links[j] != Some(0)
    {
      if i == 0 {
        assert g.nodes[0].links == [Some(1), None];
      }
    }
  }
}
