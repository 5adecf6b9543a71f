/**
 A dialogue node: a speaker, a prompt key, an ordered list of response keys and,
 for each response, at most one successor node.

 xNode addresses a node's ports by name: the input "entry" and one dynamic
 output "responseKeys i" per response key. Here a port name is a datatype and a
 successor is an index into the owning graph's node sequence.
 */
module DialogueNodes {
  import opened Wrappers

  /** Index of a node in its graph's node sequence. */
  type NodeIndex = nat

  /** The name a port is looked up by: "entry", or "responseKeys " followed by an integer. */
  datatype PortName = Entry | ResponseKey(index: int)

  /**
   A port as a lookup returns it. Whether the entry input is connected depends
   on the graph's links, so the port itself does not record it. A response
   output's connection type is Override, so it links to at most one successor.
   */
  datatype Port = EntryInput | ResponseOutput(index: nat, link: Option<NodeIndex>)
  {
    predicate IsConnected()
      requires ResponseOutput?
    {
      link.Some?
    }
  }

  datatype Node = Node(
    speakerName: string,
    promptKey: string,
    responseKeys: seq<string>,
    links: seq<Option<NodeIndex>>)

  /** The dynamic port list holds exactly one output per response key. */
  predicate WellFormed(n: Node) {
    |n.links| == |n.responseKeys|
  }

  /** Port lookup by name; None when no port of that name exists. */
  function GetPort(n: Node, name: PortName): (r: Option<Port>)
    requires name.ResponseKey? ==> WellFormed(n)
    ensures name.Entry? ==> r == Some(EntryInput)
    ensures name.ResponseKey? ==> (r.Some? <==> 0 <= name.index < |n.responseKeys|)
    ensures name.ResponseKey? && r.Some? ==>
              r.value.ResponseOutput? && r.value.index == name.index &&
              r.value.link == n.links[name.index]
  {
    match name
    case Entry => Some(EntryInput)
    case ResponseKey(i) =>
      if 0 <= i < |n.responseKeys| then Some(ResponseOutput(i, n.links[i])) else None
  }

  const Prefix: string := "DialogueNode/"

  /**
   A description of the node built from its speaker, its prompt key and its
   first response key, separated by '/'. `DialogueNode.GetString` indexes
   `responseKeys[0]` unguarded, so it needs at least one response key.
   */
  function GetString(n: Node): (r: string)
    requires |n.responseKeys| > 0
    ensures |r| == |Prefix| + |n.speakerName| + 1 + |n.promptKey| + 1 + |n.responseKeys[0]|
    ensures r[..|Prefix|] == Prefix
    ensures r[|Prefix|..|Prefix| + |n.speakerName|] == n.speakerName
    ensures r[|Prefix| + |n.speakerName|] == '/'
    ensures r[|Prefix| + |n.speakerName| + 1..|r| - |n.responseKeys[0]| - 1] == n.promptKey
    ensures r[|r| - |n.responseKeys[0]| - 1] == '/'
    ensures r[|r| - |n.responseKeys[0]|..] == n.responseKeys[0]
  {
    Prefix + n.speakerName + "/" + n.promptKey + "/" + n.responseKeys[0]
  }

  /** Only the first response key takes part in GetString; the rest and the links do not. */
  lemma GetStringIgnoresLaterResponses(a: Node, b: Node)
    requires |a.responseKeys| > 0 && |b.responseKeys| > 0
    requires a.speakerName == b.speakerName && a.promptKey == b.promptKey
    requires a.responseKeys[0] == b.responseKeys[0]
    ensures GetString(a) == GetString(b)
  {
  }

  /** The value a port carries: always null, for every port. */
  function GetValue(n: Node, name: PortName): (r: Option<string>)
    ensures r.None?
  {
    None
  }
}
