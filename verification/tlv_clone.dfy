/** bertlv/tlv_writer.go: Clone on nodes in the heap. */
module TlvClone {
  import opened Bytes
  import opened BerTlv
  import Tags

  /** A TLV as it lies in memory. Children may be shared; only cycles are excluded. */
  class HeapTlv {
    const tag: array<byte>
    const value: array<byte>
    const children: seq<HeapTlv?>
    ghost const Repr: set<object>

    ghost predicate Valid()
      reads this, Repr
      decreases Repr
    {
      && {this, tag, value} <= Repr && tag.Length > 0
      && forall c :: c in children && c != null ==> c in Repr && c.Repr < Repr && this !in c.Repr && c.Valid()
    }

    /** The tree that a node stands for. */
    ghost function Tree(): (t: Tlv)
      requires Valid()
      reads this, Repr
      decreases Repr, 0
      ensures t.Node?
    {
      BerTlv.Node(tag[..], value[..], Trees(children, Repr - {this}))
    }

    constructor (tag: array<byte>, value: array<byte>, children: seq<HeapTlv?>, ghost below: set<object>)
      requires tag.Length > 0 && Within(children, below)
      ensures Valid() && this.tag == tag && this.value == value && this.children == children
      ensures Repr == {this, tag, value} + below
    {
      this.tag, this.value, this.children := tag, value, children;
      this.Repr := {this, tag, value} + below;
    }
  }

  /** Nodes, or nil, that lie within a set of objects. */
  ghost predicate Within(cs: seq<HeapTlv?>, objects: set<object>)
    reads objects
  {
    forall c :: c in cs && c != null ==> c in objects && c.Repr <= objects && c.Valid()
  }

  ghost function Trees(cs: seq<HeapTlv?>, objects: set<object>): (ts: seq<Tlv>)
    requires Within(cs, objects)
    reads objects
    decreases objects, |cs|
    ensures |ts| == |cs|
  {
    if cs == [] then []
    else
      assert forall c :: c in cs[1..] ==> c in cs;
      [if cs[0] == null then Nil else cs[0].Tree()] + Trees(cs[1..], objects)
  }

  /** The trees are the nodes' own, whatever set is named. */
  lemma {:induction false} SameTrees(cs: seq<HeapTlv?>, a: set<object>, b: set<object>)
    requires Within(cs, a) && Within(cs, b)
    ensures Trees(cs, a) == Trees(cs, b)
    decreases |cs|
  {
    if cs != [] {
      assert forall c :: c in cs[1..] ==> c in cs;
      SameTrees(cs[1..], a, b);
    }
  }

  lemma {:induction false} TreesMore(cs: seq<HeapTlv?>, c: HeapTlv?, objects: set<object>)
    requires Within(cs + [c], objects)
    ensures Within(cs, objects)
    ensures Trees(cs + [c], objects) == Trees(cs, objects) + [if c == null then Nil else c.Tree()]
    decreases |cs|
  {
    assert c in cs + [c] && forall x :: x in cs ==> x in cs + [c];
    if cs == [] {
      assert [c][1..] == [] && cs + [c] == [c];
    } else {
      assert forall x :: x in cs[1..] + [c] ==> x in cs + [c];
      TreesMore(cs[1..], c, objects);
      assert (cs + [c])[1..] == cs[1..] + [c];
    }
  }

  /** make and copy */
  method Copied(a: array<byte>) returns (b: array<byte>)
    ensures fresh(b) && b[..] == a[..]
  {
    b := new byte[a.Length](i requires 0 <= i < a.Length reads a => a[i]);
  }

  /** Clone (tlv_writer.go:81-98): new storage throughout, and the tree that BerTlv.Clone gives. */
  method Clone(t: HeapTlv) returns (c: HeapTlv)
    requires t.Valid()
    ensures c.Valid() && fresh(c.Repr)
    ensures c.Tree() == BerTlv.Clone(t.Tree())
    decreases t.Repr, 1
  {
    hide CloneAll, Trees, Tags.Constructed;
    var tag := Copied(t.tag);
    if !Tags.Constructed(t.tag[..]) {
      var value := Copied(t.value);
      c := new HeapTlv(tag, value, [], {});
      NoTrees(c.Repr - {c});
      return;
    }
    var children, below := CloneChildren(t);
    var value := new byte[0];
    c := new HeapTlv(tag, value, children, below);
    SameTrees(children, below, c.Repr - {c});
  }

  /** Its loop over the children (tlv_writer.go:91-96). */
  method CloneChildren(t: HeapTlv) returns (children: seq<HeapTlv?>, ghost below: set<object>)
    requires t.Valid()
    ensures fresh(below) && Within(children, below)
    ensures Trees(children, below) == CloneAll(Trees(t.children, t.Repr - {t}))
    decreases t.Repr, 0
  {
    hide BerTlv.Clone, CloneAll, Trees;
    ghost var inside := t.Repr - {t};
    children, below := [], {};
    NoTrees(inside);
    var i := 0;
    while i < |t.children|
      invariant 0 <= i <= |t.children| && fresh(below) && Within(children, below)
      invariant Within(t.children[..i], inside)
      invariant Trees(children, below) == CloneAll(Trees(t.children[..i], inside))
    {
      var child := t.children[i];
      assert t.children[..i + 1] == t.children[..i] + [child] && child in t.children;
      TreesMore(t.children[..i], child, inside);
      CloneOneMore(Trees(t.children[..i], inside), if child == null then Nil else child.Tree());
      if child != null {
        var cloned := Clone(child);
        ghost var all := below + cloned.Repr;
        SameTrees(children, below, all);
        TreesMore(children, cloned, all);
        children, below := children + [cloned], all;
      }
      i := i + 1;
    }
    assert t.children[..i] == t.children;
  }

  lemma NoTrees(objects: set<object>)
    ensures Trees([], {}) == CloneAll(Trees([], objects)) && Trees([], objects) == []
  {
  }

  lemma CloneOneMore(ts: seq<Tlv>, t: Tlv)
    ensures CloneAll(ts + [t]) == CloneAll(ts) + if t.Nil? then [] else [BerTlv.Clone(t)]
  {
    CloneAllAppend(ts, [t]);
    assert [t][1..] == [];
  }
}
