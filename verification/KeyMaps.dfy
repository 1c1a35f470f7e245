/** `Node` and `KeyMap` of `termwiz/src/keymap.rs`: the trie that insertion modifies in place. */
module KeyMaps {
  import opened Options
  import opened KeyTrie

  class Node<V> {
    const edge: Byte
    var children: seq<Node<V>>
    var value: Option<V>
    ghost var Repr: set<object>

    /** The nodes `cs` lie in `repr` without this node, and share nothing. */
    ghost predicate Apart(cs: seq<Node<V>>, repr: set<object>)
      reads cs
    {
      && (forall i {:trigger cs[i]} :: 0 <= i < |cs| ==>
            cs[i] in repr && cs[i].Repr <= repr && this !in cs[i].Repr)
      && (forall i, j {:trigger cs[i], cs[j]} :: 0 <= i < j < |cs| ==> cs[i].Repr !! cs[j].Repr)
    }

    ghost predicate Valid()
      reads this, Repr
      decreases Repr
    {
      && this in Repr
      && (forall i {:trigger children[i]} :: 0 <= i < |children| ==> children[i] in Repr)
      && Apart(children, Repr)
      && (forall i {:trigger children[i]} :: 0 <= i < |children| ==> children[i].Valid())
    }

    lemma OneMoreApart(cs: seq<Node<V>>, cs': seq<Node<V>>, idx: nat, node: Node<V>, repr: set<object>)
      requires Apart(cs, repr) && idx <= |cs| && cs' == cs[..idx] + [node] + cs[idx..]
      requires node in node.Repr && node.Repr !! repr && this in repr
      ensures Apart(cs', repr + node.Repr)
    {
    }

    /** The first `n` children as values. */
    ghost function Models(n: nat): (ts: seq<Trie<V>>)
      requires Valid() && n <= |children|
      reads this, Repr
      decreases Repr, n
      ensures |ts| == n
      ensures forall i {:trigger ts[i]} :: 0 <= i < n ==> ts[i] == children[i].Model()
    {
      if n == 0 then [] else Models(n - 1) + [children[n - 1].Model()]
    }

    ghost function Model(): (t: Trie<V>)
      requires Valid()
      reads this, Repr
      decreases Repr, |children| + 1
    {
      Trie(edge, Models(|children|), value)
    }

    constructor (edge: Byte)
      ensures Valid() && fresh(Repr) && Model() == Leaf(edge)
    {
      this.edge, children, value, Repr := edge, [], None, {this};
    }

    function EdgeLabels(): (labels: seq<Byte>)
      reads this
      ensures |labels| == |children|
      ensures forall i {:trigger labels[i]} :: 0 <= i < |labels| ==> labels[i] == children[i].edge
    {
      seq(|children|, i requires 0 <= i < |children| reads this => children[i].edge)
    }

    method Insert(key: Key, v: V)
      requires Valid()
      modifies Repr
      decreases key, 2
      ensures Valid() && fresh(Repr - old(Repr))
      ensures Model() == Inserted(old(Model()), key, v)
    {
      ghost var before := Model();
      if key == [] {
        value := Some(v);
        assert Models(|children|) == old(Models(|children|));
        return;
      }
      var labels := EdgeLabels();
      assert labels == Labels(before.children);
      var idx := Search(labels, key[0]);
      if idx == |labels| || labels[idx] != key[0] {
        AddLeaf(idx, key[0]);
      }
      InsertedInSteps(before, Model(), key, v, idx);
      InsertInto(idx, key, v);
    }

    twostate lemma Untouched(c: Node<V>)
      requires old(c.Valid()) && unchanged(old(c.Repr))
      ensures c.Valid() && c.Repr == old(c.Repr) && c.Model() == old(c.Model())
    {
    }

    method AddChild(idx: nat, node: Node<V>)
      requires Valid() && idx <= |children| && node.Valid() && node.Repr !! Repr
      modifies this
      ensures Valid() && Repr == old(Repr) + old(node.Repr) && value == old(value)
      ensures children == old(children[..idx] + [node] + children[idx..])
      ensures forall i {:trigger old(children)[i]} :: 0 <= i < old(|children|) ==>
        old(children)[i].Valid() && old(children)[i].Model() == old(children[i].Model())
      ensures node.Valid() && node.Model() == old(node.Model())
    {
      ghost var olds, repr := children, Repr;
      children := children[..idx] + [node] + children[idx..];
      Repr := Repr + node.Repr;
      OneMoreApart(olds, children, idx, node, repr);
      forall i {:trigger olds[i]} | 0 <= i < |olds|
        ensures olds[i].Valid() && olds[i].Model() == old(olds[i].Model())
      {
        Untouched(olds[i]);
      }
      Untouched(node);
    }

    lemma ModelsOfOneMore(olds: seq<Node<V>>, ts: seq<Trie<V>>, idx: nat, node: Node<V>, b: Byte)
      requires Valid() && |ts| == |olds| && idx <= |olds| && children == olds[..idx] + [node] + olds[idx..]
      requires forall i {:trigger olds[i]} :: 0 <= i < |olds| ==> olds[i].Valid() && olds[i].Model() == ts[i]
      requires node.Valid() && node.Model() == Leaf(b)
      ensures Models(|children|) == ts[..idx] + [Leaf(b)] + ts[idx..]
    {
    }

    /** `children.insert(idx, Node::new(b))` */
    method AddLeaf(idx: nat, b: Byte)
      requires Valid() && idx <= |children|
      modifies this
      ensures Valid() && fresh(Repr - old(Repr)) && |children| == old(|children|) + 1
      ensures var t := old(Model());
              Model() == t.(children := t.children[..idx] + [Leaf(b)] + t.children[idx..])
    {
      ghost var ts, olds := Models(|children|), children;
      var node := new Node(b);
      AddChild(idx, node);
      ModelsOfOneMore(olds, ts, idx, node, b);
    }

    lemma ModelsWithChild(ts: seq<Trie<V>>, idx: nat, t: Trie<V>)
      requires Valid() && |ts| == |children| && idx < |ts| && children[idx].Model() == t
      requires forall i {:trigger children[i]} :: 0 <= i < |children| && i != idx ==> children[i].Model() == ts[i]
      ensures Models(|children|) == ts[idx := t]
    {
    }

    /** Goes on with the child at `idx`. */
    method InsertInto(idx: nat, key: Key, v: V)
      requires Valid() && idx < |children| && key != []
      modifies Repr
      decreases key, 1
      ensures Valid() && fresh(Repr - old(Repr))
      ensures var t := old(Model());
              Model() == t.(children := t.children[idx := Inserted(t.children[idx], key[1..], v)])
    {
      ghost var ts := Models(|children|);
      InsertBelow(idx, key, v, ts);
      ModelsWithChild(ts, idx, Inserted(ts[idx], key[1..], v));
    }

    /** `ts` are the children as values. */
    method InsertBelow(idx: nat, key: Key, v: V, ghost ts: seq<Trie<V>>)
      requires Valid() && idx < |children| && key != [] && ts == Models(|children|)
      modifies Repr
      decreases key, 0
      ensures Valid() && fresh(Repr - old(Repr)) && children == old(children) && value == old(value)
      ensures children[idx].Model() == Inserted(ts[idx], key[1..], v)
      ensures forall i {:trigger children[i]} :: 0 <= i < |children| && i != idx ==> children[i].Model() == ts[i]
    {
      children[idx].Insert(key[1..], v);
      Repr := Repr + children[idx].Repr;
      forall i {:trigger children[i]} | 0 <= i < |children| && i != idx
        ensures children[i].Valid() && children[i].Model() == ts[i] && children[i].Repr == old(children[i].Repr)
      {
        Untouched(children[i]);
      }
    }

    /** A match that stands at this node. */
    method Answer(depth: nat, ambiguous: bool) returns (r: NodeFind<V>)
      ensures r == AtNode(value, depth, ambiguous)
    {
      match value {
        case None => r := AmbiguousBackTrack;
        case Some(v) => r := if ambiguous then AmbiguousMatch(depth, v) else ExactMatch(depth, v);
      }
    }

    method Lookup(key: Key, depth: nat, maybeMore: bool) returns (r: NodeFind<V>)
      requires Valid()
      decreases key, 1
      ensures r == LookupNode(Model(), key, depth, maybeMore)
    {
      ghost var t := Model();
      if key == [] {
        if children == [] && value.None? {
          return Panicked;
        }
        r := Answer(depth, maybeMore && children != []);
        return;
      }
      var labels := EdgeLabels();
      var idx := Search(labels, key[0]);
      assert labels == Labels(t.children);
      LookupDown(t, key, depth, maybeMore, idx);
      if idx < |labels| && labels[idx] == key[0] {
        assert t.children[idx] == children[idx].Model();
        r := LookupBelow(idx, key, depth, maybeMore);
      } else if depth == 0 {
        r := NoMatch;
      } else {
        r := Answer(depth, false);
      }
    }

    /** Asks the child at `idx`, and answers with this node if the child has nothing. */
    method LookupBelow(idx: nat, key: Key, depth: nat, maybeMore: bool) returns (r: NodeFind<V>)
      requires Valid() && idx < |children| && key != []
      decreases key, 0
      ensures var below := LookupNode(children[idx].Model(), key[1..], depth + 1, maybeMore);
              r == if below == AmbiguousBackTrack then AtNode(value, depth, maybeMore) else below
    {
      r := children[idx].Lookup(key[1..], depth + 1, maybeMore);
      if r.AmbiguousBackTrack? {
        r := Answer(depth, maybeMore);
      }
    }
  }

  class KeyMap<V> {
    const root: Node<V>
    /** All insertions so far. */
    ghost var history: seq<Entry<V>>

    ghost predicate Valid()
      reads this, root, root.Repr
    {
      root.Valid() && this !in root.Repr && root.Model() == TrieOf(history)
    }

    constructor ()
      ensures Valid() && fresh(root.Repr) && history == []
    {
      root := new Node(0);
      history := [];
    }

    method Insert(key: Key, value: V)
      requires Valid()
      modifies this, root.Repr
      ensures Valid() && fresh(root.Repr - old(root.Repr)) && history == old(history) + [Entry(key, value)]
    {
      TrieOfAppend(history, Entry(key, value));
      history := history + [Entry(key, value)];
      root.Insert(key, value);
    }

    /** The answer is what the plain map of all insertions determines. */
    method Lookup(key: Key, maybeMore: bool) returns (r: Found<V>)
      requires Valid()
      ensures LookupMeets(history, key, maybeMore, r)
    {
      LookupRefinesMap(history, key, maybeMore);
      var found := root.Lookup(key, 0, maybeMore);
      match found {
        case NoMatch => r := NotFound;
        case AmbiguousBackTrack => r := NeedData;
        case ExactMatch(depth, value) => r := Exact(depth, value);
        case AmbiguousMatch(depth, value) => r := Ambiguous(depth, value);
        case Panicked => r := Panic;
      }
    }
  }
}
