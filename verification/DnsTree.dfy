/** What a DNS discovery tree (EIP-1459) holds, and the order in which a walk meets it. */
module DnsTree {
  import opened Basics

  type Name = string
  type Text = string
  type NodeRecord = string

  /** A parsed entry; links and nested roots are passed over by the walk. */
  datatype Entry = Branch(hashes: seq<Name>) | Enr(record: NodeRecord) | Passed

  /** The resolver, the entry parsers, base32 decoding and Keccak, as pure functions. */
  datatype Dns = Dns(
    domain: Name,
    lookup: Name -> Option<seq<Text>>,
    parseRoot: Text -> Option<Name>,
    parse: Text -> Option<Entry>,
    decode: Name -> Option<seq<bv8>>,
    keccak: Text -> seq<bv8>)

  // ----- trees -----

  /** What is found under a name: an error, or a list of text records. */
  datatype Tree = Unresolved | Resolved(parts: seq<Part>)

  /** One text record: malformed or with the wrong hash, a node, a branch, or something else. */
  datatype Part = Bad | Node(record: NodeRecord) | Fork(children: seq<Tree>) | Other

  ghost predicate Represents(dns: Dns, name: Name, t: Tree)
    decreases t
  {
    var found := dns.lookup(name + "." + dns.domain);
    match t
    case Unresolved => found.None? || dns.decode(name).None?
    case Resolved(parts) =>
      && found.Some? && dns.decode(name).Some? && |found.value| == |parts|
      && forall i :: 0 <= i < |parts| ==> Describes(dns, dns.decode(name).value, found.value[i], parts[i])
  }

  ghost predicate Describes(dns: Dns, prefix: seq<bv8>, text: Text, p: Part)
    decreases p
  {
    var e := dns.parse(text);
    var sound := e.Some? && prefix <= dns.keccak(text);
    match p
    case Bad => !sound
    case Node(r) => sound && e.value == Enr(r)
    case Other => sound && e.value == Passed
    case Fork(children) =>
      && sound && e.value.Branch? && |e.value.hashes| == |children|
      && forall i :: 0 <= i < |children| ==> Represents(dns, e.value.hashes[i], children[i])
  }

  ghost predicate RepresentAll(dns: Dns, names: seq<Name>, ts: seq<Tree>) {
    |names| == |ts| && forall i :: 0 <= i < |ts| ==> Represents(dns, names[i], ts[i])
  }

  // ----- the order of the walk -----

  datatype Item = Found(record: NodeRecord) | Failed

  /** What visiting a name and everything below it yields: the node or failure
      that ends the scan of its texts comes first, then the subtrees of the
      branches scanned before it, the last branch first. */
  function Items(t: Tree): seq<Item> {
    match t
    case Unresolved => [Failed]
    case Resolved(parts) => Stop(parts) + Below(parts)
  }

  function Stop(parts: seq<Part>): seq<Item> {
    if parts == [] then []
    else match parts[0]
      case Bad => [Failed]
      case Node(r) => [Found(r)]
      case Fork(_) => Stop(parts[1..])
      case Other => Stop(parts[1..])
  }

  function Below(parts: seq<Part>): seq<Item> {
    if parts == [] then []
    else match parts[0]
      case Bad => []
      case Node(_) => []
      case Fork(children) => Below(parts[1..]) + ItemsAll(children)
      case Other => Below(parts[1..])
  }

  function ItemsAll(ts: seq<Tree>): seq<Item> {
    if ts == [] then [] else Items(ts[0]) + ItemsAll(ts[1..])
  }

  lemma {:induction false} ItemsAllConcat(a: seq<Tree>, b: seq<Tree>)
    ensures ItemsAll(a + b) == ItemsAll(a) + ItemsAll(b)
  {
    if a == [] {
      assert a + b == b && ItemsAll(a) == [];
    } else {
      ItemsAllConcat(a[1..], b);
      assert (a + b)[0] == a[0] && (a + b)[1..] == a[1..] + b;
      Associative(Items(a[0]), ItemsAll(a[1..]), ItemsAll(b));
    }
  }

  // ----- how much is left -----

  function Size(t: Tree): nat {
    match t
    case Unresolved => 1
    case Resolved(parts) => 1 + SizeParts(parts)
  }

  function SizeParts(parts: seq<Part>): nat {
    if parts == [] then 0
    else (if parts[0].Fork? then SizeAll(parts[0].children) else 0) + SizeParts(parts[1..])
  }

  function SizeAll(ts: seq<Tree>): nat {
    if ts == [] then 0 else Size(ts[0]) + SizeAll(ts[1..])
  }

  lemma {:induction false} SizeAllConcat(a: seq<Tree>, b: seq<Tree>)
    ensures SizeAll(a + b) == SizeAll(a) + SizeAll(b)
  {
    if a == [] {
      assert a + b == b;
    } else {
      SizeAllConcat(a[1..], b);
      assert (a + b)[0] == a[0] && (a + b)[1..] == a[1..] + b;
    }
  }

  /** What the first name on a stack contributes. */
  lemma VisitItems(ts: seq<Tree>)
    requires ts != []
    ensures var rest := ItemsAll(ts[1..]);
      match ts[0]
      case Unresolved => ItemsAll(ts) == [Failed] + rest
      case Resolved(parts) => ItemsAll(ts) == Stop(parts) + (Below(parts) + rest)
  {
    match ts[0]
    case Unresolved =>
    case Resolved(parts) => Associative(Stop(parts), Below(parts), ItemsAll(ts[1..]));
  }

  /** What the first text of a name contributes. */
  lemma ScanParts(parts: seq<Part>)
    requires parts != []
    ensures var p := parts[0];
      if p.Bad? then Stop(parts) == [Failed] && Below(parts) == []
      else if p.Node? then Stop(parts) == [Found(p.record)] && Below(parts) == []
      else
        && Stop(parts) == Stop(parts[1..])
        && Below(parts) == Below(parts[1..]) + (if p.Fork? then ItemsAll(p.children) else [])
        && SizeParts(parts) == (if p.Fork? then SizeAll(p.children) else 0) + SizeParts(parts[1..])
  {}

  // ----- where a record comes from -----

  /** A text of the name, whose hash starts with the bytes the name encodes. */
  ghost predicate Vouched(dns: Dns, name: Name, text: Text) {
    var found, prefix := dns.lookup(name + "." + dns.domain), dns.decode(name);
    found.Some? && text in found.value && prefix.Some? && prefix.value <= dns.keccak(text)
  }

  /** Names and their texts from one branch to the next down to the text of a record. */
  ghost predicate Path(dns: Dns, names: seq<Name>, texts: seq<Text>, r: NodeRecord) {
    && |names| == |texts| > 0 && (forall k :: 0 <= k < |names| ==> Vouched(dns, names[k], texts[k]))
    && (forall k :: 0 <= k < |names| - 1 ==> Leads(dns, texts[k], names[k + 1]))
    && dns.parse(texts[|texts| - 1]) == Some(Enr(r))
  }

  ghost predicate Leads(dns: Dns, text: Text, name: Name) {
    var e := dns.parse(text);
    e.Some? && e.value.Branch? && name in e.value.hashes
  }

  /** The record's text is reached from the name by texts that the names vouch for. */
  ghost predicate Authentic(dns: Dns, name: Name, r: NodeRecord) {
    exists names, texts :: Path(dns, names, texts, r) && names[0] == name
  }

  lemma {:induction false} InStop(parts: seq<Part>, r: NodeRecord) returns (i: nat)
    requires Found(r) in Stop(parts)
    ensures i < |parts| && parts[i] == Node(r)
  {
    if parts[0].Node? {
      i := 0;
    } else {
      var j := InStop(parts[1..], r);
      i := j + 1;
    }
  }

  lemma {:induction false} InBelow(parts: seq<Part>, r: NodeRecord) returns (i: nat, j: nat)
    requires Found(r) in Below(parts)
    ensures i < |parts| && parts[i].Fork? && j < |parts[i].children| && Found(r) in Items(parts[i].children[j])
  {
    if parts[0].Fork? && Found(r) in ItemsAll(parts[0].children) {
      i := 0;
      j := InAll(parts[0].children, r);
    } else {
      i, j := InBelow(parts[1..], r);
      i := i + 1;
    }
  }

  lemma {:induction false} InAll(ts: seq<Tree>, r: NodeRecord) returns (j: nat)
    requires Found(r) in ItemsAll(ts)
    ensures j < |ts| && Found(r) in Items(ts[j])
  {
    if Found(r) in Items(ts[0]) {
      j := 0;
    } else {
      j := InAll(ts[1..], r);
      j := j + 1;
    }
  }

  lemma LongerPath(dns: Dns, name: Name, text: Text, next: Name, r: NodeRecord)
    requires Vouched(dns, name, text) && Leads(dns, text, next) && Authentic(dns, next, r)
    ensures Authentic(dns, name, r)
  {
    var names, texts :| Path(dns, names, texts, r) && names[0] == next;
    var ns, ts := [name] + names, [text] + texts;
    forall k | 0 <= k < |ns|
      ensures Vouched(dns, ns[k], ts[k])
    {
      if k > 0 { assert Vouched(dns, names[k - 1], texts[k - 1]); }
    }
    forall k | 0 <= k < |ns| - 1
      ensures Leads(dns, ts[k], ns[k + 1])
    {
      if k > 0 { assert Leads(dns, texts[k - 1], names[k]); }
    }
    assert Path(dns, ns, ts, r);
  }

  /** Whatever record the walk from a name meets is authentic. */
  lemma {:induction false} FoundIsAuthentic(dns: Dns, name: Name, t: Tree, r: NodeRecord)
    requires Represents(dns, name, t) && Found(r) in Items(t)
    ensures Authentic(dns, name, r)
    decreases t
  {
    var texts := dns.lookup(name + "." + dns.domain).value;
    var prefix := dns.decode(name).value;
    if Found(r) in Stop(t.parts) {
      var i := InStop(t.parts, r);
      assert Describes(dns, prefix, texts[i], t.parts[i]);
      assert Path(dns, [name], [texts[i]], r);
    } else {
      var i, j := InBelow(t.parts, r);
      var children := t.parts[i].children;
      assert Describes(dns, prefix, texts[i], t.parts[i]);
      var hashes := dns.parse(texts[i]).value.hashes;
      assert t.parts[i] in t.parts && children[j] in children;
      FoundIsAuthentic(dns, hashes[j], children[j], r);
      LongerPath(dns, name, texts[i], hashes[j], r);
    }
  }

  // ----- well-formed trees -----

  /** An EIP-1459 tree: one text per name, nothing malformed. */
  datatype EnrTree = Leaf(record: NodeRecord) | Link | Inner(children: seq<EnrTree>)

  /** The recursive preorder walk, skipping links. */
  function Preorder(t: EnrTree): seq<NodeRecord> {
    match t
    case Leaf(r) => [r]
    case Link => []
    case Inner(children) => PreorderAll(children)
  }

  function PreorderAll(ts: seq<EnrTree>): seq<NodeRecord> {
    if ts == [] then [] else Preorder(ts[0]) + PreorderAll(ts[1..])
  }

  function Published(t: EnrTree): Tree {
    match t
    case Leaf(r) => Resolved([Node(r)])
    case Link => Resolved([Other])
    case Inner(children) => Resolved([Fork(PublishedAll(children))])
  }

  function PublishedAll(ts: seq<EnrTree>): seq<Tree> {
    if ts == [] then [] else [Published(ts[0])] + PublishedAll(ts[1..])
  }

  function AllFound(rs: seq<NodeRecord>): seq<Item> {
    seq(|rs|, i requires 0 <= i < |rs| => Found(rs[i]))
  }

  /** On a well-formed tree the walk yields exactly the preorder's records. */
  lemma {:induction false} PublishedItems(t: EnrTree)
    ensures Items(Published(t)) == AllFound(Preorder(t))
  {
    match t
    case Leaf(r) =>
      assert [Node(r)][1..] == [];
    case Link =>
      assert [Other][1..] == [];
    case Inner(children) =>
      PublishedItemsAll(children);
      var parts := [Fork(PublishedAll(children))];
      assert parts[1..] == [];
      assert Stop(parts) == [] && Below(parts) == [] + ItemsAll(PublishedAll(children));
  }

  lemma {:induction false} PublishedItemsAll(ts: seq<EnrTree>)
    ensures ItemsAll(PublishedAll(ts)) == AllFound(PreorderAll(ts))
  {
    if ts != [] {
      PublishedItems(ts[0]);
      PublishedItemsAll(ts[1..]);
      assert PublishedAll(ts)[0] == Published(ts[0]) && PublishedAll(ts)[1..] == PublishedAll(ts[1..]);
      AllFoundConcat(Preorder(ts[0]), PreorderAll(ts[1..]));
    }
  }

  lemma AllFoundConcat(a: seq<NodeRecord>, b: seq<NodeRecord>)
    ensures AllFound(a + b) == AllFound(a) + AllFound(b)
  {}

  /** The records before the first failure. */
  function Reached(items: seq<Item>): seq<NodeRecord> {
    if items == [] || items[0].Failed? then [] else [items[0].record] + Reached(items[1..])
  }

  lemma {:induction false} ReachedFound(items: seq<Item>)
    ensures forall r :: r in Reached(items) ==> Found(r) in items
  {
    if items != [] && items[0].Found? {
      ReachedFound(items[1..]);
    }
  }

  lemma {:induction false} ReachedAll(rs: seq<NodeRecord>)
    ensures Reached(AllFound(rs)) == rs
  {
    if rs != [] {
      ReachedAll(rs[1..]);
      assert AllFound(rs)[1..] == AllFound(rs[1..]);
    }
  }
}
