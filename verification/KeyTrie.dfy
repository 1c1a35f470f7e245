/** The trie of `termwiz/src/keymap.rs` as a value, and what `lookup` means for the stored keys. */
module KeyTrie {
  import opened Options

  type Byte = b: int | 0 <= b < 256

  type Key = seq<Byte>

  datatype Trie<V> = Trie(edge: Byte, children: seq<Trie<V>>, value: Option<V>)

  /** What a node answers; `Panicked` stands for the panic on a node with neither children nor value. */
  datatype NodeFind<V> =
    | NoMatch
    | ExactMatch(length: nat, value: V)
    | AmbiguousBackTrack
    | AmbiguousMatch(length: nat, value: V)
    | Panicked

  datatype Found<V> =
    | NotFound
    | Exact(length: nat, value: V)
    | Ambiguous(length: nat, value: V)
    | NeedData
    | Panic

  function Leaf<V>(edge: Byte): Trie<V> {
    Trie(edge, [], None)
  }

  // ---------------------------------------------------------------- children

  ghost predicate SortedLabels(labels: seq<Byte>) {
    forall i, j {:trigger labels[i], labels[j]} :: 0 <= i < j < |labels| ==> labels[i] < labels[j]
  }

  function Labels<V>(ts: seq<Trie<V>>): (labels: seq<Byte>)
    ensures |labels| == |ts|
    ensures forall i {:trigger labels[i]} {:trigger ts[i]} :: 0 <= i < |ts| ==> labels[i] == ts[i].edge
  {
    seq(|ts|, i requires 0 <= i < |ts| => ts[i].edge)
  }

  /** What a binary search in ascending labels finds: the position of `b`, or where it belongs. */
  function Search(labels: seq<Byte>, b: Byte): (p: nat)
    ensures p <= |labels|
    ensures p < |labels| ==> b <= labels[p]
    ensures SortedLabels(labels) ==> forall i {:trigger labels[i]} :: 0 <= i < p ==> labels[i] < b
  {
    if labels == [] || b <= labels[0] then 0 else 1 + Search(labels[1..], b)
  }

  predicate Hits(labels: seq<Byte>, b: Byte) {
    var p := Search(labels, b);
    p < |labels| && labels[p] == b
  }

  function Child<V>(t: Trie<V>, b: Byte): Option<Trie<V>> {
    var labels := Labels(t.children);
    if Hits(labels, b) then Some(t.children[Search(labels, b)]) else None
  }

  function WithChild<V>(t: Trie<V>, c: Trie<V>): Trie<V> {
    var labels := Labels(t.children);
    var p := Search(labels, c.edge);
    if Hits(labels, c.edge) then t.(children := t.children[p := c])
    else t.(children := t.children[..p] + [c] + t.children[p..])
  }

  /** All labels below position `p` are less than `b`, the others are not. */
  ghost predicate Splits(labels: seq<Byte>, b: Byte, p: nat) {
    && p <= |labels|
    && forall i {:trigger labels[i]} :: 0 <= i < |labels| ==> (labels[i] < b <==> i < p)
  }

  lemma SearchSplits(labels: seq<Byte>, b: Byte)
    requires SortedLabels(labels)
    ensures Splits(labels, b, Search(labels, b))
  {
  }

  lemma SplitsOnce(labels: seq<Byte>, b: Byte, p: nat, q: nat)
    requires Splits(labels, b, p) && Splits(labels, b, q)
    ensures p == q
  {
    assert p < |labels| ==> (labels[p] < b <==> p < q);
    assert q < |labels| ==> (labels[q] < b <==> q < p);
  }

  lemma InsertedSplits(labels: seq<Byte>, labels': seq<Byte>, a: Byte, p: nat, b: Byte, q: nat)
    requires SortedLabels(labels) && Splits(labels, a, p) && (p < |labels| ==> labels[p] != a)
    requires labels' == labels[..p] + [a] + labels[p..] && Splits(labels, b, q)
    ensures SortedLabels(labels') && Splits(labels', b, if a < b then q + 1 else q)
  {
  }

  lemma SearchInserted(labels: seq<Byte>, labels': seq<Byte>, a: Byte, b: Byte)
    requires SortedLabels(labels) && !Hits(labels, a)
    requires var p := Search(labels, a); labels' == labels[..p] + [a] + labels[p..]
    ensures SortedLabels(labels')
    ensures Search(labels', b) == Search(labels, b) + (if a < b then 1 else 0)
  {
    var p, q := Search(labels, a), Search(labels, b);
    SearchSplits(labels, a);
    SearchSplits(labels, b);
    InsertedSplits(labels, labels', a, p, b, q);
    SearchSplits(labels', b);
    SplitsOnce(labels', b, Search(labels', b), if a < b then q + 1 else q);
  }

  /** Setting the child for one label leaves the others as they are. */
  lemma ChildOfWithChild<V>(t: Trie<V>, c: Trie<V>, b: Byte)
    requires SortedLabels(Labels(t.children))
    ensures SortedLabels(Labels(WithChild(t, c).children))
    ensures Child(WithChild(t, c), b) == if b == c.edge then Some(c) else Child(t, b)
  {
    var labels, t' := Labels(t.children), WithChild(t, c);
    var p, q := Search(labels, c.edge), Search(labels, b);
    if Hits(labels, c.edge) {
      ChildAfterReplace(t, t', c, p, b);
    } else {
      SearchInserted(labels, Labels(t'.children), c.edge, b);
      SearchSplits(labels, c.edge);
      SearchSplits(labels, b);
      ChildAfterInsert(t, t', c, p, b, q);
    }
  }

  lemma ChildAfterReplace<V>(t: Trie<V>, t': Trie<V>, c: Trie<V>, p: nat, b: Byte)
    requires p < |t.children| && t.children[p].edge == c.edge && t'.children == t.children[p := c]
    requires p == Search(Labels(t.children), c.edge)
    ensures Labels(t'.children) == Labels(t.children)
    ensures Child(t', b) == if b == c.edge then Some(c) else Child(t, b)
  {
    assert Labels(t'.children) == Labels(t.children);
  }

  lemma InsertedAt<T>(xs: seq<T>, c: T, p: nat, k: nat)
    requires p <= |xs|
    ensures var ys := xs[..p] + [c] + xs[p..];
            ys[p] == c && (k < p ==> ys[k] == xs[k]) && (p <= k < |xs| ==> ys[k + 1] == xs[k])
  {
  }

  lemma ChildAfterInsert<V>(t: Trie<V>, t': Trie<V>, c: Trie<V>, p: nat, b: Byte, q: nat)
    requires p <= |t.children| && q <= |t.children|
    requires t'.children == t.children[..p] + [c] + t.children[p..]
    requires Splits(Labels(t.children), c.edge, p) && Splits(Labels(t.children), b, q)
    requires p < |t.children| ==> t.children[p].edge != c.edge
    requires Search(Labels(t.children), b) == q
    requires Search(Labels(t'.children), b) == if c.edge < b then q + 1 else q
    ensures Child(t', b) == if b == c.edge then Some(c) else Child(t, b)
  {
    var labels := Labels(t.children);
    assert p < |labels| ==> (labels[p] < b <==> p < q);
    assert q < |labels| ==> (labels[q] < c.edge <==> q < p);
    InsertedAt(t.children, c, p, q);
  }

  // ---------------------------------------------------------------- insertion and lookup

  function ChildOrLeaf<V>(t: Trie<V>, b: Byte): Trie<V> {
    var c := Child(t, b);
    if c.Some? then c.value else Leaf(b)
  }

  function Inserted<V>(t: Trie<V>, key: Key, v: V): (t': Trie<V>)
    ensures t'.edge == t.edge
    decreases key
  {
    if key == [] then t.(value := Some(v))
    else WithChild(t, Inserted(ChildOrLeaf(t, key[0]), key[1..], v))
  }

  lemma InsertThenUpdate<T>(s: seq<T>, p: nat, x: T, y: T)
    requires p <= |s|
    ensures (s[..p] + [x] + s[p..])[p := y] == s[..p] + [y] + s[p..]
  {
  }

  /** Room is made for a new child first, and then the insertion goes on below it. */
  lemma InsertedInSteps<V>(t: Trie<V>, t1: Trie<V>, key: Key, v: V, p: nat)
    requires key != [] && p == Search(Labels(t.children), key[0]) && p < |t1.children|
    requires if Hits(Labels(t.children), key[0]) then t1 == t
             else t1 == t.(children := t.children[..p] + [Leaf(key[0])] + t.children[p..])
    ensures Inserted(t, key, v) == t1.(children := t1.children[p := Inserted(t1.children[p], key[1..], v)])
  {
    var c := Inserted(t1.children[p], key[1..], v);
    if !Hits(Labels(t.children), key[0]) {
      InsertThenUpdate(t.children, p, t1.children[p], c);
    }
  }

  function AtNode<V>(value: Option<V>, depth: nat, ambiguous: bool): NodeFind<V> {
    match value
    case None => AmbiguousBackTrack
    case Some(v) => if ambiguous then AmbiguousMatch(depth, v) else ExactMatch(depth, v)
  }

  function LookupNode<V>(t: Trie<V>, key: Key, depth: nat, maybeMore: bool): NodeFind<V>
    decreases key
  {
    if key == [] then
      if t.children == [] && t.value == None then Panicked
      else AtNode(t.value, depth, maybeMore && t.children != [])
    else
      var c := Child(t, key[0]);
      if c == None then
        if depth == 0 then NoMatch else AtNode(t.value, depth, false)
      else
        var r := LookupNode(c.value, key[1..], depth + 1, maybeMore);
        if r == AmbiguousBackTrack then AtNode(t.value, depth, maybeMore) else r
  }

  lemma LookupDown<V>(t: Trie<V>, key: Key, depth: nat, maybeMore: bool, p: nat)
    requires key != [] && p == Search(Labels(t.children), key[0])
    ensures LookupNode(t, key, depth, maybeMore) ==
      if p < |t.children| && t.children[p].edge == key[0] then
        var r := LookupNode(t.children[p], key[1..], depth + 1, maybeMore);
        if r == AmbiguousBackTrack then AtNode(t.value, depth, maybeMore) else r
      else if depth == 0 then NoMatch else AtNode(t.value, depth, false)
  {
  }

  /** The value stored for a key. */
  function Stored<V>(t: Trie<V>, key: Key): Option<V>
    decreases key
  {
    if key == [] then t.value
    else
      var c := Child(t, key[0]);
      if c == None then None else Stored(c.value, key[1..])
  }

  /** There is a node for `p`. */
  predicate Reaches<V>(t: Trie<V>, p: Key)
    decreases p
  {
    p == [] || (Child(t, p[0]).Some? && Reaches(Child(t, p[0]).value, p[1..]))
  }

  /** The node for `key` has children. */
  predicate GoesOn<V>(t: Trie<V>, key: Key)
    decreases key
  {
    if key == [] then t.children != []
    else Child(t, key[0]).Some? && GoesOn(Child(t, key[0]).value, key[1..])
  }

  ghost predicate Sorted<V>(t: Trie<V>) {
    && SortedLabels(Labels(t.children))
    && forall i {:trigger t.children[i]} :: 0 <= i < |t.children| ==> Sorted(t.children[i])
  }

  /** A node without children holds a value. */
  ghost predicate Alive<V>(t: Trie<V>) {
    && (t.children == [] ==> t.value.Some?)
    && forall i {:trigger t.children[i]} :: 0 <= i < |t.children| ==> Alive(t.children[i])
  }

  ghost predicate WellFormed<V>(t: Trie<V>) {
    && Sorted(t)
    && forall i {:trigger t.children[i]} :: 0 <= i < |t.children| ==> Alive(t.children[i])
  }

  lemma ChildIsWellFormed<V>(t: Trie<V>, b: Byte)
    requires WellFormed(t)
    ensures Child(t, b).Some? ==>
      WellFormed(Child(t, b).value) && Alive(Child(t, b).value) && Child(t, b).value.edge == b
  {
  }

  lemma WithChildWellFormed<V>(t: Trie<V>, c: Trie<V>)
    requires WellFormed(t) && WellFormed(c) && Alive(c)
    ensures WellFormed(WithChild(t, c)) && Alive(WithChild(t, c))
  {
    var t' := WithChild(t, c);
    ChildOfWithChild(t, c, c.edge);
    forall i {:trigger t'.children[i]} | 0 <= i < |t'.children|
      ensures Sorted(t'.children[i]) && Alive(t'.children[i])
    {
      assert t'.children[i] == c || t'.children[i] in t.children;
    }
  }

  lemma {:induction false} InsertedWellFormed<V>(t: Trie<V>, key: Key, v: V)
    requires WellFormed(t)
    ensures WellFormed(Inserted(t, key, v)) && Alive(Inserted(t, key, v))
    decreases key
  {
    if key != [] {
      ChildIsWellFormed(t, key[0]);
      var c := ChildOrLeaf(t, key[0]);
      InsertedWellFormed(c, key[1..], v);
      WithChildWellFormed(t, Inserted(c, key[1..], v));
    } else {
      assert Inserted(t, key, v).children == t.children;
    }
  }

  /** Insertion changes what is stored for one key only. */
  lemma {:induction false} StoredAfterInsert<V>(t: Trie<V>, key: Key, v: V, k: Key)
    requires WellFormed(t)
    ensures Stored(Inserted(t, key, v), k) == if k == key then Some(v) else Stored(t, k)
    decreases key
  {
    if key != [] && k != [] {
      ChildIsWellFormed(t, key[0]);
      var c := ChildOrLeaf(t, key[0]);
      ChildOfWithChild(t, Inserted(c, key[1..], v), k[0]);
      if k[0] == key[0] {
        StoredAfterInsert(c, key[1..], v, k[1..]);
        SameKey(k, key);
      }
    }
  }

  lemma SameKey(k: Key, key: Key)
    requires k != [] && key != [] && k[0] == key[0]
    ensures k == key <==> k[1..] == key[1..]
    ensures k <= key <==> k[1..] <= key[1..]
    ensures k < key <==> k[1..] < key[1..]
  {
  }

  lemma {:induction false} ReachesAfterInsert<V>(t: Trie<V>, key: Key, v: V, p: Key)
    requires WellFormed(t)
    ensures Reaches(Inserted(t, key, v), p) <==> Reaches(t, p) || p <= key
    decreases key
  {
    if key != [] && p != [] {
      ChildIsWellFormed(t, key[0]);
      var c := ChildOrLeaf(t, key[0]);
      ChildOfWithChild(t, Inserted(c, key[1..], v), p[0]);
      if p[0] == key[0] {
        ReachesAfterInsert(c, key[1..], v, p[1..]);
        SameKey(p, key);
      }
    }
  }

  lemma {:induction false} GoesOnAfterInsert<V>(t: Trie<V>, key: Key, v: V, p: Key)
    requires WellFormed(t)
    ensures GoesOn(Inserted(t, key, v), p) <==> GoesOn(t, p) || p < key
    decreases key
  {
    if key != [] {
      ChildIsWellFormed(t, key[0]);
      var c := ChildOrLeaf(t, key[0]);
      if p != [] {
        ChildOfWithChild(t, Inserted(c, key[1..], v), p[0]);
        if p[0] == key[0] {
          GoesOnAfterInsert(c, key[1..], v, p[1..]);
          SameKey(p, key);
        }
      }
    }
  }

  // ---------------------------------------------------------------- histories of insertions

  datatype Entry<V> = Entry(key: Key, value: V)

  function TrieOf<V>(history: seq<Entry<V>>): Trie<V> {
    if history == [] then Leaf(0)
    else
      var last := history[|history| - 1];
      Inserted(TrieOf(history[..|history| - 1]), last.key, last.value)
  }

  lemma TrieOfAppend<V>(history: seq<Entry<V>>, e: Entry<V>)
    ensures TrieOf(history + [e]) == Inserted(TrieOf(history), e.key, e.value)
  {
  }

  /** The plain map: the value of the last insertion under `key`. */
  function LastWrite<V>(history: seq<Entry<V>>, key: Key): Option<V> {
    if history == [] then None
    else if history[|history| - 1].key == key then Some(history[|history| - 1].value)
    else LastWrite(history[..|history| - 1], key)
  }

  /** Some stored key starts with `p`. */
  ghost predicate StartsSome<V>(history: seq<Entry<V>>, p: Key) {
    exists i {:trigger history[i]} :: 0 <= i < |history| && p <= history[i].key
  }

  ghost predicate StartsLonger<V>(history: seq<Entry<V>>, p: Key) {
    exists i {:trigger history[i]} :: 0 <= i < |history| && p < history[i].key
  }

  lemma StartsAppend<V>(history: seq<Entry<V>>, p: Key)
    requires history != []
    ensures var h, last := history[..|history| - 1], history[|history| - 1];
            && (StartsSome(history, p) <==> StartsSome(h, p) || p <= last.key)
            && (StartsLonger(history, p) <==> StartsLonger(h, p) || p < last.key)
  {
  }

  /** The trie refines the map. */
  lemma {:induction false} TrieRefinesMap<V>(history: seq<Entry<V>>, k: Key)
    ensures var t := TrieOf(history);
            && WellFormed(t) && (history != [] ==> Alive(t))
            && Stored(t, k) == LastWrite(history, k)
            && (Reaches(t, k) <==> k == [] || StartsSome(history, k))
            && (GoesOn(t, k) <==> StartsLonger(history, k))
    decreases |history|
  {
    if history != [] {
      var h, last := history[..|history| - 1], history[|history| - 1];
      TrieRefinesMap(h, k);
      InsertedWellFormed(TrieOf(h), last.key, last.value);
      StoredAfterInsert(TrieOf(h), last.key, last.value, k);
      ReachesAfterInsert(TrieOf(h), last.key, last.value, k);
      GoesOnAfterInsert(TrieOf(h), last.key, last.value, k);
      StartsAppend(history, k);
    } else {
      assert Labels(TrieOf(history).children) == [];
    }
  }

  // ---------------------------------------------------------------- what lookup finds

  /** `n` is the length of the longest prefix of `key` that is stored. */
  ghost predicate LongestStored<V>(t: Trie<V>, key: Key, n: nat) {
    && n <= |key| && Stored(t, key[..n]).Some?
    && forall m {:trigger key[..m]} :: n < m <= |key| ==> Stored(t, key[..m]) == None
  }

  ghost predicate NoneStored<V>(t: Trie<V>, key: Key) {
    forall m {:trigger key[..m]} :: 0 <= m <= |key| ==> Stored(t, key[..m]) == None
  }

  /** The trie goes on behind position `n` as the input does, as far as there is input. */
  predicate Continues<V>(t: Trie<V>, key: Key, n: nat)
    requires n <= |key|
  {
    if n < |key| then Reaches(t, key[..n + 1]) else GoesOn(t, key)
  }

  ghost predicate FindMeets<V>(t: Trie<V>, key: Key, depth: nat, maybeMore: bool, r: NodeFind<V>) {
    match r
    case NoMatch => depth == 0 && key != [] && Child(t, key[0]) == None
    case AmbiguousBackTrack => NoneStored(t, key) && (key == [] || Child(t, key[0]).Some? || depth > 0)
    case ExactMatch(n, v) =>
      && depth <= n && LongestStored(t, key, n - depth) && Stored(t, key[..n - depth]) == Some(v)
      && !(maybeMore && Continues(t, key, n - depth))
    case AmbiguousMatch(n, v) =>
      && depth <= n && LongestStored(t, key, n - depth) && Stored(t, key[..n - depth]) == Some(v)
      && maybeMore && Continues(t, key, n - depth)
    case Panicked => false
  }

  lemma PrefixOfTail(key: Key, m: nat)
    requires 0 < m <= |key|
    ensures key[..m][0] == key[0] && key[..m][1..] == key[1..][..m - 1]
  {
  }

  lemma StoredBelow<V>(t: Trie<V>, key: Key, c: Trie<V>)
    requires key != [] && Child(t, key[0]) == Some(c)
    ensures NoneStored(c, key[1..]) ==> forall m {:trigger key[..m]} :: 0 < m <= |key| ==> Stored(t, key[..m]) == None
    ensures forall n: nat {:trigger LongestStored(c, key[1..], n)} :: LongestStored(c, key[1..], n) ==>
      && LongestStored(t, key, n + 1) && Stored(t, key[..n + 1]) == Stored(c, key[1..][..n])
      && (Continues(t, key, n + 1) <==> Continues(c, key[1..], n))
  {
    forall m | 0 < m <= |key| ensures Stored(t, key[..m]) == Stored(c, key[1..][..m - 1])
                                 && Reaches(t, key[..m]) == Reaches(c, key[1..][..m - 1]) {
      PrefixOfTail(key, m);
    }
  }

  lemma NothingBelow<V>(t: Trie<V>, key: Key)
    requires key != [] && Child(t, key[0]) == None
    ensures forall m {:trigger key[..m]} :: 0 < m <= |key| ==>
      Stored(t, key[..m]) == None && !Reaches(t, key[..m])
    ensures key[..0] == []
  {
    forall m {:trigger key[..m]} | 0 < m <= |key| ensures Stored(t, key[..m]) == None && !Reaches(t, key[..m]) {
      PrefixOfTail(key, m);
    }
  }

  lemma LookupStops<V>(t: Trie<V>, key: Key, depth: nat, maybeMore: bool)
    requires WellFormed(t) && key != [] && Child(t, key[0]) == None
    ensures FindMeets(t, key, depth, maybeMore, LookupNode(t, key, depth, maybeMore))
  {
    NothingBelow(t, key);
    assert key[..1] == [key[0]];
  }

  lemma LookupGoesOn<V>(t: Trie<V>, key: Key, c: Trie<V>, depth: nat, maybeMore: bool)
    requires WellFormed(t) && key != [] && Child(t, key[0]) == Some(c)
    requires FindMeets(c, key[1..], depth + 1, maybeMore, LookupNode(c, key[1..], depth + 1, maybeMore))
    ensures FindMeets(t, key, depth, maybeMore, LookupNode(t, key, depth, maybeMore))
  {
    StoredBelow(t, key, c);
    assert key[..0] == [] && key[..1] == [key[0]];
  }

  lemma {:induction false} LookupNodeMeets<V>(t: Trie<V>, key: Key, depth: nat, maybeMore: bool)
    requires WellFormed(t) && (Alive(t) || (key != [] && depth == 0))
    ensures FindMeets(t, key, depth, maybeMore, LookupNode(t, key, depth, maybeMore))
    decreases key
  {
    if key == [] {
      assert key[..0] == key;
    } else {
      var c := Child(t, key[0]);
      if c == None {
        LookupStops(t, key, depth, maybeMore);
      } else {
        ChildIsWellFormed(t, key[0]);
        LookupNodeMeets(c.value, key[1..], depth + 1, maybeMore);
        LookupGoesOn(t, key, c.value, depth, maybeMore);
      }
    }
  }

  /** `KeyMap::lookup` */
  function Lookup<V>(t: Trie<V>, key: Key, maybeMore: bool): Found<V> {
    match LookupNode(t, key, 0, maybeMore)
    case NoMatch => NotFound
    case AmbiguousBackTrack => NeedData
    case ExactMatch(n, v) => Exact(n, v)
    case AmbiguousMatch(n, v) => Ambiguous(n, v)
    case Panicked => Panic
  }

  ghost predicate NothingWritten<V>(history: seq<Entry<V>>, key: Key) {
    forall m {:trigger key[..m]} :: 0 <= m <= |key| ==> LastWrite(history, key[..m]) == None
  }

  /** The first `n` bytes of `key` are the longest prefix stored, with value `v`. */
  ghost predicate LongestWritten<V>(history: seq<Entry<V>>, key: Key, n: nat, v: V) {
    && n <= |key| && LastWrite(history, key[..n]) == Some(v)
    && forall m {:trigger key[..m]} :: n < m <= |key| ==> LastWrite(history, key[..m]) == None
  }

  /** Some stored key is longer than `n` and agrees with the input at position `n`, if there is input. */
  ghost predicate MoreExpected<V>(history: seq<Entry<V>>, key: Key, n: nat)
    requires n <= |key|
  {
    if n < |key| then StartsSome(history, key[..n + 1]) else StartsLonger(history, key)
  }

  ghost predicate LookupMeets<V>(history: seq<Entry<V>>, key: Key, maybeMore: bool, r: Found<V>) {
    if key == [] && history == [] then r.Panic?
    else if key != [] && !StartsSome(history, key[..1]) then r.NotFound?
    else
      match r
      case NeedData => NothingWritten(history, key)
      case Exact(n, v) => LongestWritten(history, key, n, v) && !(maybeMore && MoreExpected(history, key, n))
      case Ambiguous(n, v) => LongestWritten(history, key, n, v) && maybeMore && MoreExpected(history, key, n)
      case NotFound => false
      case Panic => false
  }

  /** For every history of insertions, lookup agrees with the plain map: it answers with the longest
      stored prefix, asks for data exactly when there is none, and calls a match ambiguous exactly when
      more input may come and the trie goes on. */
  lemma LookupRefinesMap<V>(history: seq<Entry<V>>, key: Key, maybeMore: bool)
    ensures LookupMeets(history, key, maybeMore, Lookup(TrieOf(history), key, maybeMore))
  {
    var t := TrieOf(history);
    forall m {:trigger key[..m]} | 0 <= m <= |key|
      ensures Stored(t, key[..m]) == LastWrite(history, key[..m])
      ensures Reaches(t, key[..m]) <==> m == 0 || StartsSome(history, key[..m])
    {
      TrieRefinesMap(history, key[..m]);
    }
    TrieRefinesMap(history, key);
    if key != [] {
      assert Reaches(t, key[..1]) <==> Child(t, key[0]).Some? by {
        assert key[..1] == [key[0]];
      }
      LookupNodeMeets(t, key, 0, maybeMore);
    } else if history != [] {
      LookupNodeMeets(t, key, 0, maybeMore);
    }
  }

  /** The answer is determined by the plain map. */
  lemma LookupUnique<V>(history: seq<Entry<V>>, key: Key, maybeMore: bool, r: Found<V>, r': Found<V>)
    requires LookupMeets(history, key, maybeMore, r) && LookupMeets(history, key, maybeMore, r')
    ensures r == r'
  {
  }

  lemma OneEntry<V>(history: seq<Entry<V>>, key: Key)
    requires |history| == 1 && !(history[0].key <= key)
    ensures NothingWritten(history, key)
  {
  }

  /** The input shares the first byte with the one stored key, and differs further on. */
  lemma {:induction false} DeadEndOf<V>(history: seq<Entry<V>>, key: Key, maybeMore: bool)
    requires |history| == 1 && key != [] && key[..1] <= history[0].key
    requires !(history[0].key <= key) && !(key <= history[0].key)
    ensures Lookup(TrieOf(history), key, maybeMore) == NeedData && !StartsSome(history, key)
  {
    assert key[..1] <= history[0].key;
    OneEntry(history, key);
    LookupRefinesMap(history, key, maybeMore);
  }

  /** The answer looks no further than the byte where the input leaves the trie: more data is asked for
      although no stored key starts with the input. */
  lemma {:induction false} DeadEnd<V>(v: V, maybeMore: bool)
    ensures var history: seq<Entry<V>>, key: Key := [Entry([1, 2, 3], v)], [1, 2, 9];
            Lookup(TrieOf(history), key, maybeMore) == NeedData && !StartsSome(history, key)
  {
    var first: Key, key: Key := [1, 2, 3], [1, 2, 9];
    assert first[2] == 3 && key[2] == 9;
    assert key[..1] == first[..1];
    DeadEndOf([Entry(first, v)], key, maybeMore);
  }
}
