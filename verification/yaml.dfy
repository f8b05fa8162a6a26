/** The part of YamlDotNet's representation model that the front-matter code
    walks: the node tree of a loaded document, the key list gathered from all
    of its mappings, case-insensitive key search and the root's key indexer.
    Loading text into this tree is not modelled (see JournalFrontMatter). */
module Yaml {
  import opened Results
  import opened Text

  /** A node of a loaded document: YamlScalarNode, YamlSequenceNode or YamlMappingNode. */
  datatype Node =
    | Scalar(value: string)
    | Sequence(items: seq<Node>)
    | Mapping(entries: seq<Entry>)

  /** One key/value pair of a mapping, in document order. */
  datatype Entry = Entry(key: Node, value: Node)

  /** Why indexing a node by a key failed. */
  datatype IndexFault =
    | NotAMapping   // only a mapping node can be indexed by a key
    | KeyNotFound   // the mapping has no entry with that key

  function Flatten<T>(ss: seq<seq<T>>): seq<T> {
    if |ss| == 0 then [] else ss[0] + Flatten(ss[1..])
  }

  /** The keys of a mapping's entries, in order. */
  function KeysOf(es: seq<Entry>): (ks: seq<Node>)
    ensures |ks| == |es|
    ensures forall i :: 0 <= i < |es| ==> ks[i] == es[i].key
  {
    seq(|es|, i requires 0 <= i < |es| => es[i].key)
  }

  /** The keys of every mapping reachable from n, in the order AllNodes visits
      the mappings: a mapping before its children, and for each entry the key's
      subtree before the value's subtree. */
  function AllKeys(n: Node): seq<Node> {
    match n
    case Scalar(_) => []
    case Sequence(items) =>
      Flatten(seq(|items|, i requires 0 <= i < |items| => AllKeys(items[i])))
    case Mapping(es) =>
      KeysOf(es) + Flatten(seq(|es|, i requires 0 <= i < |es| => AllKeys(es[i].key) + AllKeys(es[i].value)))
  }

  /** The root mapping's own keys come first in the key list. */
  lemma RootKeysFirst(es: seq<Entry>)
    ensures |AllKeys(Mapping(es))| >= |es|
    ensures forall i :: 0 <= i < |es| ==> AllKeys(Mapping(es))[i] == es[i].key
  {
  }

  /** A scalar, or a sequence of scalars: a node that holds no mapping. */
  predicate Flat(n: Node) {
    n.Scalar? || (n.Sequence? && forall i :: 0 <= i < |n.items| ==> n.items[i].Scalar?)
  }

  lemma {:induction false} FlattenEmpties<T>(ss: seq<seq<T>>)
    requires forall i :: 0 <= i < |ss| ==> ss[i] == []
    ensures Flatten(ss) == []
  {
    if |ss| > 0 {
      FlattenEmpties(ss[1..]);
    }
  }

  /** A mapping whose keys and values hold no further mapping contributes
      only its own keys. */
  lemma AllKeysOfFlatMapping(es: seq<Entry>)
    requires forall i :: 0 <= i < |es| ==> es[i].key.Scalar? && Flat(es[i].value)
    ensures AllKeys(Mapping(es)) == KeysOf(es)
  {
    forall n | Flat(n)
      ensures AllKeys(n) == []
    {
      if n.Sequence? {
        FlattenEmpties(seq(|n.items|, i requires 0 <= i < |n.items| => AllKeys(n.items[i])));
      }
    }
    FlattenEmpties(seq(|es|, i requires 0 <= i < |es| => AllKeys(es[i].key) + AllKeys(es[i].value)));
  }

  /** The key is a scalar whose value lower-cases to name. */
  predicate KeyNamed(k: Node, name: string) {
    k.Scalar? && ToLowerInvariant(k.value) == name
  }

  /** A scalar key of another length never lower-cases to name. */
  lemma LengthMismatchUnnamed(k: string, name: string)
    requires |k| != |name|
    ensures !KeyNamed(Scalar(k), name)
  {
  }

  /** The position of the first key named name, or |keys| if there is none. */
  function FirstNamed(keys: seq<Node>, name: string): (i: nat)
    ensures i <= |keys|
    ensures forall j :: 0 <= j < i ==> !KeyNamed(keys[j], name)
    ensures i < |keys| ==> KeyNamed(keys[i], name)
  {
    if |keys| == 0 then 0
    else if KeyNamed(keys[0], name) then 0
    else 1 + FirstNamed(keys[1..], name)
  }

  /** keys.FirstOrDefault(k => k.Value.ToLowerInvariant() == name). */
  function FindKey(keys: seq<Node>, name: string): (r: Option<Node>)
    ensures r.None? <==> forall j :: 0 <= j < |keys| ==> !KeyNamed(keys[j], name)
    ensures r.Some? ==> KeyNamed(r.value, name)
    ensures r.Some? ==> exists i :: 0 <= i < |keys| && r.value == keys[i]
                                   && forall j :: 0 <= j < i ==> !KeyNamed(keys[j], name)
  {
    var i := FirstNamed(keys, name);
    if i < |keys| then Some(keys[i]) else None
  }

  /** The position of the first entry whose key equals key, or |es|. */
  function EntryIndex(es: seq<Entry>, key: Node): (i: nat)
    ensures i <= |es|
    ensures forall j :: 0 <= j < i ==> es[j].key != key
    ensures i < |es| ==> es[i].key == key
  {
    if |es| == 0 then 0
    else if es[0].key == key then 0
    else 1 + EntryIndex(es[1..], key)
  }

  /** The key indexer node[key]: the value stored under key in a mapping. */
  function Lookup(n: Node, key: Node): (r: Result<Node, IndexFault>)
    ensures r.Ok? <==> n.Mapping? && exists i :: 0 <= i < |n.entries| && n.entries[i].key == key
    ensures !n.Mapping? ==> r == Err(NotAMapping)
    ensures n.Mapping? && r.Err? ==> r.error == KeyNotFound
    ensures r.Ok? ==> Entry(key, r.value) in n.entries
  {
    if !n.Mapping? then Err(NotAMapping)
    else
      var i := EntryIndex(n.entries, key);
      if i < |n.entries| then Ok(n.entries[i].value) else Err(KeyNotFound)
  }

  /** Looking up the first key of a mapping that carries a given name yields
      that entry's value: no earlier entry can have an equal key. */
  lemma LookupFirstNamed(es: seq<Entry>, name: string, i: nat)
    requires i < |es| && KeyNamed(es[i].key, name)
    requires forall j :: 0 <= j < i ==> !KeyNamed(es[j].key, name)
    ensures Lookup(Mapping(es), es[i].key) == Ok(es[i].value)
  {
    var k := EntryIndex(es, es[i].key);
    assert k == i;
  }

  /** YamlNode.ToString: a scalar prints as its value; sequences and mappings
      print through the library's own formatting, passed in as show. */
  function NodeText(n: Node, show: Node -> string): (t: string)
    ensures n.Scalar? ==> t == n.value
  {
    if n.Scalar? then n.value else show(n)
  }

  /** items.Select(x => x.ToString()). */
  function Texts(items: seq<Node>, show: Node -> string): (ts: seq<string>)
    ensures |ts| == |items|
    ensures forall i :: 0 <= i < |items| ==> ts[i] == NodeText(items[i], show)
  {
    seq(|items|, i requires 0 <= i < |items| => NodeText(items[i], show))
  }
}
