/** `DnsDisc`: the walk with an explicit stack of names. */
module DnsDisc {
  import opened Basics
  import opened DnsTree

  class DnsDisc {
    const dns: Dns
    /** The root's entry hash, once resolved. */
    var root: Option<Name>
    var missing: seq<Name>
    var current: Option<NodeRecord>
    /** What the names on the stack stand for, and what the whole tree is. */
    ghost var pending: seq<Tree>
    ghost const tree: Tree

    /** The root entry's hash, if the domain resolves to a root entry. */
    ghost function RootName(): Option<Name> {
      var found := dns.lookup(dns.domain);
      if found.None? || found.value == [] then None else dns.parseRoot(found.value[0])
    }

    /** A resolver never answers the domain with an empty list; the tree behind the root is finite. */
    ghost predicate Setting() {
      dns.lookup(dns.domain) != Some([]) && (RootName().Some? ==> Represents(dns, RootName().value, tree))
    }

    ghost predicate Valid()
      reads this
    {
      Setting() && (root.Some? ==> RepresentAll(dns, missing, pending))
    }

    constructor (dns: Dns, ghost tree: Tree)
      requires dns.lookup(dns.domain) != Some([])
      requires var found := dns.lookup(dns.domain);
        found.Some? && found.value != [] && dns.parseRoot(found.value[0]).Some? ==>
          Represents(dns, dns.parseRoot(found.value[0]).value, tree)
      ensures Valid() && root.None? && this.dns == dns && this.tree == tree
    {
      this.dns := dns;
      this.tree := tree;
      root := None;
      missing := [];
      current := None;
      pending := [];
    }

    /** The subtrees still to be walked. */
    ghost function Left(): seq<Tree>
      reads this
    {
      if root.None? then [tree] else pending
    }

    method ResolveRoot() returns (ok: bool)
      requires Valid()
      modifies this`root, this`missing, this`pending
      ensures Valid() && (ok <==> RootName().Some?)
      ensures ok ==> root.Some? && pending == [tree]
      ensures !ok ==> unchanged(this)
    {
      var res := dns.lookup(dns.domain);
      if res.None? {
        return false;
      }
      var eroot := dns.parseRoot(res.value[0]);
      if eroot.None? {
        return false;
      }
      root := eroot;
      missing := [eroot.value];
      pending := [tree];
      return true;
    }

    /** One turn of the outer loop: pops a name and scans its texts. */
    method Visit() returns (item: Option<Item>)
      requires Valid() && root.Some? && missing != []
      modifies this`missing, this`pending
      ensures Valid()
      ensures ItemsAll(old(pending)) == (if item.Some? then [item.value] else []) + ItemsAll(pending)
      ensures SizeAll(pending) < SizeAll(old(pending))
    {
      ghost var t, rest := pending[0], pending[1..];
      VisitItems(pending);
      var target := missing[0];
      missing := missing[1..];
      pending := rest;
      assert Represents(dns, target, t);
      var data := dns.lookup(target + "." + dns.domain);
      if data.None? {
        return Some(Failed);
      }
      var expectedPrefix := dns.decode(target);
      if expectedPrefix.None? {
        return Some(Failed);
      }
      item := ScanTexts(data.value, expectedPrefix.value, t.parts);
    }

    /** The inner loop over the texts of a name. */
    method ScanTexts(data: seq<Text>, prefix: seq<bv8>, ghost parts: seq<Part>) returns (item: Option<Item>)
      requires RepresentAll(dns, missing, pending)
      requires |data| == |parts| && forall i :: 0 <= i < |parts| ==> Describes(dns, prefix, data[i], parts[i])
      modifies this`missing, this`pending
      ensures RepresentAll(dns, missing, pending)
      ensures Stop(parts) == if item.Some? then [item.value] else []
      ensures ItemsAll(pending) == Below(parts) + ItemsAll(old(pending))
      ensures SizeAll(pending) <= SizeParts(parts) + SizeAll(old(pending))
    {
      ghost var left := parts;
      for i := 0 to |data|
        invariant left == parts[i..] && RepresentAll(dns, missing, pending)
        invariant Stop(left) == Stop(parts)
        invariant Below(left) + ItemsAll(pending) == Below(parts) + ItemsAll(old(pending))
        invariant SizeParts(left) + SizeAll(pending) == SizeParts(parts) + SizeAll(old(pending))
      {
        ghost var p, before := parts[i], pending;
        ScanParts(left);
        item := ScanText(data[i], prefix, p);
        if item.Some? {
          return;
        }
        Associative(Below(left[1..]), if p.Fork? then ItemsAll(p.children) else [], ItemsAll(before));
        left := left[1..];
      }
      return None;
    }

    /** One text: what ends the scan, if it does; a branch goes on the stack. */
    method ScanText(text: Text, prefix: seq<bv8>, ghost p: Part) returns (item: Option<Item>)
      requires RepresentAll(dns, missing, pending) && Describes(dns, prefix, text, p)
      modifies this`missing, this`pending
      ensures RepresentAll(dns, missing, pending)
      ensures item == if p.Bad? then Some(Failed) else if p.Node? then Some(Found(p.record)) else None
      ensures ItemsAll(pending) == (if p.Fork? then ItemsAll(p.children) else []) + ItemsAll(old(pending))
      ensures SizeAll(pending) == (if p.Fork? then SizeAll(p.children) else 0) + SizeAll(old(pending))
    {
      assert [] + ItemsAll(pending) == ItemsAll(pending);
      var res := Check(text, prefix, p);
      if res.None? {
        return Some(Failed);
      }
      match res.value
      case Branch(hashes) =>
        Push(hashes, p.children);
        return None;
      case Enr(record) =>
        return Some(Found(record));
      case Passed =>
        return None;
    }

    /** Parses a text and compares its hash with the name. */
    method Check(text: Text, prefix: seq<bv8>, ghost p: Part) returns (e: Option<Entry>)
      requires Describes(dns, prefix, text, p)
      ensures match p
        case Bad => e.None?
        case Node(r) => e == Some(Enr(r))
        case Other => e == Some(Passed)
        case Fork(children) => e.Some? && e.value.Branch? && RepresentAll(dns, e.value.hashes, children)
    {
      e := dns.parse(text);
      if e.Some? && !(prefix <= dns.keccak(text)) {
        e := None;
      }
    }

    method Push(hashes: seq<Name>, ghost children: seq<Tree>)
      requires RepresentAll(dns, missing, pending) && RepresentAll(dns, hashes, children)
      modifies this`missing, this`pending
      ensures RepresentAll(dns, missing, pending)
      ensures ItemsAll(pending) == ItemsAll(children) + ItemsAll(old(pending))
      ensures SizeAll(pending) == SizeAll(children) + SizeAll(old(pending))
    {
      ItemsAllConcat(children, pending);
      SizeAllConcat(children, pending);
      missing := hashes + missing;
      pending := children + pending;
    }

    method NextNode() returns (record: Option<NodeRecord>, failed: bool)
      requires Valid()
      modifies this`root, this`missing, this`pending
      ensures Valid() && (root.None? <==> old(root).None? && RootName().None?)
      ensures root.None? ==> record.None? && failed && unchanged(this)
      ensures root.Some? ==> Delivers(ItemsAll(old(Left())), record, failed, ItemsAll(pending))
    {
      if root.None? {
        var ok := ResolveRoot();
        if !ok {
          return None, true;
        }
      }
      while |missing| > 0
        invariant Valid() && root.Some? && ItemsAll(pending) == ItemsAll(old(Left()))
        decreases SizeAll(pending)
      {
        var item := Visit();
        if item.Some? {
          match item.value
          case Found(r) => return Some(r), false;
          case Failed => return None, true;
        }
      }
      return None, false;
    }

    method Has() returns (more: bool, ghost failed: bool)
      requires Valid()
      modifies this`root, this`missing, this`pending, this`current
      ensures Valid() && (more <==> current.Some?) && (root.None? <==> old(root).None? && RootName().None?)
      ensures root.None? ==> !more
      ensures root.Some? ==> Delivers(ItemsAll(old(Left())), current, failed, ItemsAll(pending))
    {
      var err;
      current, err := NextNode();
      return current.Some?, err;
    }

    method Next() returns (record: Option<NodeRecord>)
      ensures record == current
    {
      record := current;
    }
  }

  /** A call delivers the first item of the walk, if any, and leaves the others. */
  ghost predicate Delivers(items: seq<Item>, record: Option<NodeRecord>, failed: bool, rest: seq<Item>) {
    if items == [] then record.None? && !failed && rest == []
    else rest == items[1..] && match items[0]
      case Found(r) => record == Some(r) && !failed
      case Failed => record.None? && failed
  }

  lemma DeliveredRecord(items: seq<Item>, record: Option<NodeRecord>, failed: bool, rest: seq<Item>)
    requires Delivers(items, record, failed, rest) && record.Some?
    ensures items != [] && rest == items[1..] && Reached(items) == [record.value] + Reached(rest)
  {}

  /** The usual loop over Has and Next collects the records up to the first failure. */
  method Collect(d: DnsDisc) returns (records: seq<NodeRecord>)
    requires d.Valid() && d.root.None?
    modifies d
    ensures d.RootName().None? ==> records == []
    ensures d.RootName().Some? ==> records == Reached(Items(d.tree))
    ensures forall r :: r in records ==> d.RootName().Some? && Authentic(d.dns, d.RootName().value, r)
  {
    records := [];
    ghost var all := ItemsAll([d.tree]);
    assert [d.tree][1..] == [];
    assert all == Items(d.tree) + ItemsAll([]) == Items(d.tree);
    ghost var left := all;
    var more;
    ghost var failed;
    more, failed := d.Has();
    while more
      invariant d.Valid() && (more <==> d.current.Some?)
      invariant d.RootName().None? ==> !more && records == []
      invariant d.RootName().Some? ==> d.root.Some? && Delivers(left, d.current, failed, ItemsAll(d.pending))
      invariant d.RootName().Some? ==> records + Reached(left) == Reached(all)
      decreases |left|
    {
      var r := d.Next();
      DeliveredRecord(left, r, failed, ItemsAll(d.pending));
      assert records + ([r.value] + Reached(left[1..])) == (records + [r.value]) + Reached(left[1..]);
      records := records + [r.value];
      left := left[1..];
      more, failed := d.Has();
    }
    if d.RootName().Some? {
      assert Reached(left) == [];
      assert records + [] == records;
      AllAuthentic(d.dns, d.RootName().value, d.tree);
    }
  }

  /** Every record collected was parsed from a text that its name vouches for, and so on up to the root. */
  lemma AllAuthentic(dns: Dns, name: Name, t: Tree)
    requires Represents(dns, name, t)
    ensures forall r :: r in Reached(Items(t)) ==> Authentic(dns, name, r)
  {
    ReachedFound(Items(t));
    forall r | r in Reached(Items(t))
      ensures Authentic(dns, name, r)
    {
      FoundIsAuthentic(dns, name, t, r);
    }
  }

  /** For a well-formed tree that is the recursive preorder. */
  method CollectPublished(d: DnsDisc, ghost t: EnrTree) returns (records: seq<NodeRecord>)
    requires d.Valid() && d.root.None? && d.RootName().Some? && d.tree == Published(t)
    modifies d
    ensures records == Preorder(t)
  {
    PublishedItems(t);
    ReachedAll(Preorder(t));
    records := Collect(d);
  }
}
