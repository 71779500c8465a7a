/** Keyed lookup: children are sorted on first use and then searched by halving. */
module JsonLookup {
  import opened Options
  import opened Json
  import opened JsonRoundTrip
  import opened JsonClosure

  // ---- The order of keys ----

  lemma {:induction false} KeyTrichotomy(a: string, b: string)
    ensures a == b <==> !KeyLess(a, b) && !KeyLess(b, a)
    ensures !(KeyLess(a, b) && KeyLess(b, a))
  {
    if a != [] && b != [] {
      assert a == [a[0]] + a[1..] && b == [b[0]] + b[1..];
      KeyTrichotomy(a[1..], b[1..]);
    }
  }

  /** a is not after b, b is not after c. */
  lemma {:induction false} KeyTransitive(a: string, b: string, c: string)
    requires !KeyLess(b, a) && !KeyLess(c, b)
    ensures !KeyLess(c, a)
    ensures KeyLess(a, b) || KeyLess(b, c) ==> KeyLess(a, c)
  {
    if a != [] && b != [] && c != [] {
      if Code(a[0]) == Code(b[0]) == Code(c[0]) {
        KeyTransitive(a[1..], b[1..], c[1..]);
      }
    }
  }

  /** The keys agree before position k, and there the first one ends or has the lesser
      character. */
  ghost predicate FirstDiffers(a: string, b: string, k: nat) {
    && k <= |a| && k < |b| && a[..k] == b[..k]
    && (k == |a| || Code(a[k]) < Code(b[k]))
  }

  /** Lexicographic order: decided at the first difference. */
  lemma {:induction false} KeyLessIs(a: string, b: string)
    ensures KeyLess(a, b) <==> exists k: nat :: FirstDiffers(a, b, k)
  {
    if a == [] || b == [] {
      assert a == [] && b != [] ==> FirstDiffers(a, b, 0);
    } else if Code(a[0]) != Code(b[0]) {
      assert Code(a[0]) < Code(b[0]) ==> FirstDiffers(a, b, 0);
      forall k: nat | FirstDiffers(a, b, k) ensures k == 0 {
        if k > 0 {
          AgreeFirst(a, b, k);
        }
      }
    } else {
      KeyLessIs(a[1..], b[1..]);
      CodeIsOneToOne(a[0], b[0]);
      forall k: nat ensures FirstDiffers(a[1..], b[1..], k) <==> k + 1 <= |a| && FirstDiffers(a, b, k + 1) {
        ShiftDifference(a, b, k);
      }
      if k: nat :| FirstDiffers(a, b, k) {
        assert FirstDiffers(a[1..], b[1..], k - 1);
      }
      if k: nat :| FirstDiffers(a[1..], b[1..], k) {
        assert FirstDiffers(a, b, k + 1);
      }
    }
  }

  lemma AgreeFirst(a: string, b: string, k: nat)
    requires FirstDiffers(a, b, k) && k > 0
    ensures a[0] == b[0]
  {
    assert a[..k][0] == b[..k][0];
  }

  lemma CodeIsOneToOne(c: char, d: char)
    requires Code(c) == Code(d)
    ensures c == d
  {
  }

  lemma ShiftDifference(a: string, b: string, k: nat)
    requires a != [] && b != [] && a[0] == b[0]
    ensures FirstDiffers(a[1..], b[1..], k) <==> k + 1 <= |a| && FirstDiffers(a, b, k + 1)
  {
    if k + 1 <= |a| && k + 1 <= |b| {
      assert a[..k + 1] == [a[0]] + a[1..][..k] && b[..k + 1] == [b[0]] + b[1..][..k];
    }
  }

  /** Characters are signed: a byte above 127 comes before every other one. */
  lemma HighBytesFirst(c: char, d: char)
    requires 128 <= c as int < 256 && d as int < 128
    ensures KeyLess([c], [d]) && !KeyLess([d], [c])
  {
  }

  ghost predicate InOrder(children: seq<Child>) {
    forall i, j | 0 <= i < j < |children| :: !KeyLess(children[j].key, children[i].key)
  }

  ghost predicate DistinctKeys(children: seq<Child>) {
    forall i, j | 0 <= i < j < |children| :: children[i].key != children[j].key
  }

  // ---- What the flag means ----

  lemma InOrderAppend(children: seq<Child>, c: Child)
    ensures InOrder(children + [c]) <==>
            InOrder(children) && (children == [] || !KeyLess(c.key, children[|children| - 1].key))
  {
    var all := children + [c];
    if InOrder(all) {
      assert InOrder(children) by {
        forall i, j | 0 <= i < j < |children| ensures !KeyLess(children[j].key, children[i].key) {
          assert all[i] == children[i] && all[j] == children[j];
        }
      }
      if children != [] {
        assert all[|children| - 1] == children[|children| - 1] && all[|children|] == c;
      }
    }
    if InOrder(children) && children != [] && !KeyLess(c.key, children[|children| - 1].key) {
      forall i | 0 <= i < |children| ensures !KeyLess(c.key, children[i].key) {
        if i < |children| - 1 {
          KeyTransitive(children[i].key, children[|children| - 1].key, c.key);
        }
      }
    }
  }

  /** Adding members one by one keeps the flag exactly as long as they come in order. */
  lemma {:induction false} FillFlag(f: Frame, children: seq<Child>)
    requires f.isObj && InOrder(f.children)
    ensures Fill(f, children).sorted <==> f.sorted && InOrder(f.children + children)
    decreases |children|
  {
    if children == [] {
      assert f.children + children == f.children;
    } else {
      var c, rest := children[0], children[1..];
      assert f.children + children == (f.children + [c]) + rest;
      InOrderAppend(f.children, c);
      if InOrder(f.children + [c]) {
        FillFlag(f.Add(c), rest);
      } else {
        FlagStaysDown(f.Add(c), rest);
        assert !InOrder(f.children + children) by {
          var all := f.children + [c];
          var i, j :| 0 <= i < j < |all| && KeyLess(all[j].key, all[i].key);
          assert (all + rest)[i] == all[i] && (all + rest)[j] == all[j];
        }
      }
    }
  }

  lemma {:induction false} FlagStaysDown(f: Frame, children: seq<Child>)
    requires !f.sorted
    ensures !Fill(f, children).sorted
    decreases |children|
  {
    if children != [] {
      FlagStaysDown(f.Add(children[0]), children[1..]);
    }
  }

  /** Everywhere in the tree, an object that claims to be sorted is. */
  ghost predicate FlagsSound(n: Node)
    decreases n, 1
  {
    n.Container? ==> (n.isObj && n.sorted ==> InOrder(n.children)) && AllFlagsSound(n.children)
  }

  ghost predicate AllFlagsSound(children: seq<Child>)
    decreases children, 0
  {
    children == [] || (FlagsSound(children[0].node) && AllFlagsSound(children[1..]))
  }

  lemma {:induction false} AllFlagsSoundIs(children: seq<Child>)
    ensures AllFlagsSound(children) <==> forall c | c in children :: FlagsSound(c.node)
    decreases |children|
  {
    if children != [] {
      AllFlagsSoundIs(children[1..]);
      assert children == [children[0]] + children[1..];
    }
  }

  lemma {:induction false} AsParsedSound(n: Node, root: bool)
    ensures FlagsSound(AsParsed(n, root))
    decreases n, 1
  {
    if n.Container? {
      var f := Frame("", n.isObj, [], !root);
      var children := AsParsedAll(n.children);
      FillChildren(f, children);
      assert [] + children == children;
      if n.isObj {
        FillFlag(f, children);
      }
      AsParsedAllSound(n.children);
    }
  }

  lemma {:induction false} AsParsedAllSound(children: seq<Child>)
    ensures AllFlagsSound(AsParsedAll(children))
    decreases children, 0
  {
    if children != [] {
      AsParsedSound(children[0].node, false);
      AsParsedAllSound(children[1..]);
    }
  }

  /** After every successful parse the flags can be trusted. */
  lemma ParsedFlagsSound(text: string)
    requires Parse(text).Some?
    ensures FlagsSound(Parse(text).value)
  {
    ParseFromTracked(text, Outside);
    AsParsedSound(Parse(text).value, true);
  }

  // ---- Looking up ----

  /** The reference: scan the members from the front. */
  function Find(children: seq<Child>, key: string): Option<Node> {
    if children == [] then None
    else if children[0].key == key then Some(children[0].node)
    else Find(children[1..], key)
  }

  lemma {:induction false} FindIs(children: seq<Child>, key: string)
    ensures match Find(children, key)
            case None => forall i | 0 <= i < |children| :: children[i].key != key
            case Some(n) => Child(key, n) in children
    decreases |children|
  {
    if children != [] && children[0].key != key {
      FindIs(children[1..], key);
    } else if children != [] {
      assert children[0] == Child(key, children[0].node);
    }
  }

  /** With distinct keys the member found does not depend on how it is looked for. */
  lemma FindUnique(children: seq<Child>, key: string, n: Node)
    requires DistinctKeys(children) && Child(key, n) in children
    ensures Find(children, key) == Some(n)
  {
    FindIs(children, key);
    var i :| 0 <= i < |children| && children[i] == Child(key, n);
  }

  function Insert(c: Child, children: seq<Child>): seq<Child>
    decreases |children|
  {
    if children == [] then [c]
    else if KeyLess(c.key, children[0].key) then [c] + children
    else [children[0]] + Insert(c, children[1..])
  }

  function Sort(children: seq<Child>): seq<Child>
    decreases |children|
  {
    if children == [] then [] else Insert(children[0], Sort(children[1..]))
  }

  lemma InOrderCons(c: Child, children: seq<Child>)
    requires InOrder(children)
    requires forall j | 0 <= j < |children| :: !KeyLess(children[j].key, c.key)
    ensures InOrder([c] + children)
  {
  }

  lemma {:induction false} InsertKeeps(c: Child, children: seq<Child>)
    ensures multiset(Insert(c, children)) == multiset(children) + multiset{c}
    decreases |children|
  {
    if children != [] {
      assert children == [children[0]] + children[1..];
      if !KeyLess(c.key, children[0].key) {
        InsertKeeps(c, children[1..]);
      }
    }
  }

  lemma {:induction false} InsertSorts(c: Child, children: seq<Child>)
    requires InOrder(children)
    ensures InOrder(Insert(c, children))
    decreases |children|
  {
    if children != [] {
      var head, rest := children[0], children[1..];
      if KeyLess(c.key, head.key) {
        KeyTrichotomy(c.key, head.key);
        forall j | 0 <= j < |children| ensures !KeyLess(children[j].key, c.key) {
          if j > 0 {
            KeyTransitive(c.key, head.key, children[j].key);
          }
        }
        InOrderCons(c, children);
      } else {
        InsertSorts(c, rest);
        InsertKeeps(c, rest);
        var tail := Insert(c, rest);
        forall j | 0 <= j < |tail| ensures !KeyLess(tail[j].key, head.key) {
          assert tail[j] in multiset(tail);
          assert tail[j] == c || tail[j] in rest;
        }
        InOrderCons(head, tail);
      }
    }
  }

  /** Sorting keeps the same members and puts them in order. */
  lemma {:induction false} SortSorts(children: seq<Child>)
    ensures InOrder(Sort(children)) && multiset(Sort(children)) == multiset(children)
    decreases |children|
  {
    if children != [] {
      SortSorts(children[1..]);
      InsertSorts(children[0], Sort(children[1..]));
      InsertKeeps(children[0], Sort(children[1..]));
      assert children == [children[0]] + children[1..];
    }
  }

  /** First position whose key is not before `key`. */
  method LowerBound(children: seq<Child>, key: string) returns (first: nat)
    requires InOrder(children)
    ensures first <= |children|
    ensures forall i | 0 <= i < first :: KeyLess(children[i].key, key)
    ensures forall i | first <= i < |children| :: !KeyLess(children[i].key, key)
  {
    first := 0;
    var len: nat := |children|;
    while len > 0
      invariant first + len <= |children|
      invariant forall i | 0 <= i < first :: KeyLess(children[i].key, key)
      invariant forall i | first + len <= i < |children| :: !KeyLess(children[i].key, key)
    {
      var half := len / 2;
      var middle := first + half;
      if KeyLess(children[middle].key, key) {
        forall i | 0 <= i < middle ensures KeyLess(children[i].key, key) {
          KeyTrichotomy(children[middle].key, key);
          KeyTransitive(children[i].key, children[middle].key, key);
        }
        first := middle + 1;
        len := len - half - 1;
      } else {
        forall i | middle < i < |children| ensures !KeyLess(children[i].key, key) {
          KeyTransitive(key, children[middle].key, children[i].key);
        }
        len := half;
      }
    }
  }

  /** A node that is looked into; the lookup sorts its children in place. */
  class NodeRef {
    var node: Node

    constructor (n: Node)
      ensures node == n
    {
      node := n;
    }

    method Lookup(key: string) returns (r: Option<Node>)
      requires FlagsSound(node)
      modifies this
      ensures FlagsSound(node)
      ensures !(old(node).Container? && old(node).isObj) ==> node == old(node) && r == None
      ensures old(node).Container? && old(node).isObj ==>
                && node.Container? && node.isObj && node.sorted && InOrder(node.children)
                && multiset(node.children) == multiset(old(node).children)
                && (old(node).sorted ==> node == old(node))
                && (r.None? ==> forall c | c in old(node).children :: c.key != key)
                && (r.Some? ==> Child(key, r.value) in old(node).children)
                && (DistinctKeys(old(node).children) ==> r == Find(old(node).children, key))
    {
      if !node.Container? || !node.isObj {
        return None;
      }
      ghost var before := node.children;
      if !node.sorted {
        SortSorts(node.children);
        node := Container(true, Sort(node.children), true);
      }
      var children := node.children;
      assert forall c :: c in children <==> c in before by {
        assert forall c :: c in multiset(children) <==> c in children;
        assert forall c :: c in multiset(before) <==> c in before;
      }
      AllFlagsSoundIs(before);
      AllFlagsSoundIs(children);
      var it := LowerBound(children, key);
      FindIs(before, key);
      if it < |children| && children[it].key == key {
        assert children[it] == Child(key, children[it].node);
        if DistinctKeys(before) {
          FindUnique(before, key, children[it].node);
        }
        return Some(children[it].node);
      }
      MissingKey(children, key, it);
      return None;
    }
  }

  lemma MissingKey(children: seq<Child>, key: string, it: nat)
    requires InOrder(children) && it <= |children|
    requires forall i | 0 <= i < it :: KeyLess(children[i].key, key)
    requires forall i | it <= i < |children| :: !KeyLess(children[i].key, key)
    requires it < |children| ==> children[it].key != key
    ensures forall c | c in children :: c.key != key
  {
    forall i | 0 <= i < |children| ensures children[i].key != key {
      if i < it {
        KeyTrichotomy(children[i].key, key);
      } else {
        KeyTrichotomy(children[it].key, key);
        if it < i {
          KeyTransitive(key, children[it].key, children[i].key);
          KeyTrichotomy(children[i].key, key);
        }
      }
    }
  }
}
