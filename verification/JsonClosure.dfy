/** Every tree the reader builds is well-formed and carries the flags it computed, so
    printing it and reading it again changes nothing. */
module JsonClosure {
  import opened Options
  import opened Json
  import opened JsonRoundTrip

  // ---- What the scanner cuts out ----

  lemma {:induction false} ScannedString(s: string)
    requires StringEnd(s) < |s|
    ensures WellEscaped(s[..StringEnd(s)])
  {
    var n := StringEnd(s);
    if s[0] == '\"' {
    } else if s[0] != '\\' {
      ScannedString(s[1..]);
      assert s[..n][1..] == s[1..][..n - 1];
    } else {
      ScannedString(s[2..]);
      assert s[..n][2..] == s[2..][..n - 2];
    }
  }

  predicate IsCloser(c: char) {
    c == '}' || c == ']'
  }

  lemma ScannedNumber(v: string)
    requires v != [] && (IsDigit(v[0]) || v[0] == '-')
    ensures var j := NumberEnd(v); WellFormed(Number(v[..j], IntEnd(v) != j))
  {
    NumberAgrees(v, v[..NumberEnd(v)]);
  }

  /** A scanned leaf is well-formed, or it is the missing value in front of a bracket. */
  lemma ScannedLeaf(v: string)
    requires v != [] && IsStop(v[0]) && ScanValue(v).Some? && ScanValue(v).value.0.Leaf?
    ensures var n := ScanValue(v).value.0.node;
            && !n.Container?
            && if IsCloser(v[0]) then n == MISSING && ScanValue(v).value.1 == v else WellFormed(n)
  {
    if v[0] == '\"' {
      ScannedString(v[1..]);
    } else if IsDigit(v[0]) || v[0] == '-' {
      ScannedNumber(v);
    }
  }

  // ---- Containers being filled ----

  lemma {:induction false} FillAppend(f: Frame, children: seq<Child>, c: Child)
    ensures Fill(f, children + [c]) == Fill(f, children).Add(c)
    decreases |children|
  {
    if children == [] {
      assert children + [c] == [c];
    } else {
      assert (children + [c])[1..] == children[1..] + [c];
      FillAppend(f.Add(children[0]), children[1..], c);
    }
  }

  lemma {:induction false} AsParsedAppend(children: seq<Child>, c: Child)
    ensures AsParsedAll(children + [c]) == AsParsedAll(children) + [Child(c.key, AsParsed(c.node, false))]
    decreases |children|
  {
    if children == [] {
      assert children + [c] == [c];
    } else {
      assert (children + [c])[1..] == children[1..] + [c];
      AsParsedAppend(children[1..], c);
    }
  }

  /** All values present. */
  ghost predicate Complete(isObj: bool, children: seq<Child>) {
    forall i | 0 <= i < |children| :: WellFormedChild(isObj, children[i], false)
  }

  lemma {:induction false} CompleteIsWellFormed(isObj: bool, children: seq<Child>)
    requires Complete(isObj, children)
    ensures WellFormedAll(isObj, children)
    decreases |children|
  {
    if children != [] {
      CompleteIsWellFormed(isObj, children[1..]);
    }
  }

  lemma {:induction false} CompleteThenLast(isObj: bool, children: seq<Child>, c: Child)
    requires Complete(isObj, children) && WellFormedChild(isObj, c, true)
    ensures WellFormedAll(isObj, children + [c])
    decreases |children|
  {
    if children == [] {
      assert children + [c] == [c];
    } else {
      assert (children + [c])[1..] == children[1..] + [c];
      CompleteThenLast(isObj, children[1..], c);
    }
  }

  /** The flag is what adding the children one by one makes it, all the way down. */
  ghost predicate Tracked(f: Frame, root: bool) {
    && f == Fill(Frame(f.key, f.isObj, [], !root), f.children)
    && AsParsedAll(f.children) == f.children
  }

  lemma TrackedAdd(f: Frame, root: bool, c: Child)
    requires Tracked(f, root) && AsParsed(c.node, false) == c.node
    ensures Tracked(f.Add(c), root)
  {
    FillAppend(Frame(f.key, f.isObj, [], !root), f.children, c);
    AsParsedAppend(f.children, c);
  }

  lemma TrackedClose(f: Frame, root: bool)
    requires Tracked(f, root)
    ensures AsParsed(f.Close().node, root) == f.Close().node
  {
    FillKey(Frame("", f.isObj, [], !root), f.key, f.children);
  }

  // ---- The invariant of the reading loop ----

  ghost predicate KeyFits(path: Path, key: string) {
    if path.InObject() then WellEscaped(key) else key == ""
  }

  /** All open containers hold tracked, complete children. */
  ghost predicate Settled(path: Path) {
    path.Inside? ==>
      && Tracked(path.top, path.parent.Outside?)
      && KeyFits(path.parent, path.top.key)
      && Complete(path.top.isObj, path.top.children)
      && Settled(path.parent)
  }

  /** The innermost container may lack its last value, but then a bracket comes next. */
  ghost predicate Reading(text: string, path: Path) {
    || Settled(path)
    || (&& path.Inside?
        && Tracked(path.top, path.parent.Outside?)
        && KeyFits(path.parent, path.top.key)
        && WellFormedAll(path.top.isObj, path.top.children)
        && Settled(path.parent)
        && text != [] && IsCloser(text[0]))
  }

  lemma SettledPush(path: Path, c: Child, rest: string)
    requires Settled(path) && path.Inside?
    requires AsParsed(c.node, false) == c.node
    requires WellFormedChild(path.top.isObj, c, false) ||
             (WellFormedChild(path.top.isObj, c, true) && rest != [] && IsCloser(rest[0]))
    ensures Reading(rest, path.Push(c))
  {
    TrackedAdd(path.top, path.parent.Outside?, c);
    CompleteThenLast(path.top.isObj, path.top.children, c);
  }

  lemma ReadingClose(text: string, path: Path, rest: string)
    requires Reading(text, path) && path.Inside?
    ensures var n := path.top.Close().node;
            WellFormed(n) && AsParsed(n, path.parent.Outside?) == n
    ensures path.parent.Inside? ==> Reading(rest, path.parent.Push(path.top.Close()))
  {
    var f := path.top;
    if Complete(f.isObj, f.children) {
      CompleteIsWellFormed(f.isObj, f.children);
    }
    TrackedClose(f, path.parent.Outside?);
    if path.parent.Inside? {
      SettledPush(path.parent, f.Close(), rest);
    }
  }

  lemma ScannedKey(s: string)
    requires s != [] && ScanKey(s).Some?
    ensures WellEscaped(ScanKey(s).value.0)
  {
    ScannedString(s[1..]);
  }

  lemma OpenTracked(path: Path, key: string, isObj: bool, rest: string)
    requires Settled(path) && KeyFits(path, key)
    ensures Reading(rest, path.Attach(key, Open(isObj)))
  {
  }

  lemma LeafTracked(path: Path, key: string, v: string)
    requires Settled(path) && path.Inside? && KeyFits(path, key)
    requires v != [] && IsStop(v[0]) && (IsCloser(v[0]) ==> path.InObject())
    requires ScanValue(v).Some? && ScanValue(v).value.0.Leaf?
    ensures Reading(ScanValue(v).value.1, path.Push(Child(key, ScanValue(v).value.0.node)))
  {
    ScannedLeaf(v);
    SettledPush(path, Child(key, ScanValue(v).value.0.node), ScanValue(v).value.1);
  }

  /** The key in front of a value, if the innermost container takes one. */
  function Keyed(s: string, path: Path): Option<(string, string)>
    requires s != []
  {
    if path.InObject() then ScanKey(s) else Some(("", s))
  }

  /** Reading a key, if there is one, and a value keeps the invariant. */
  lemma ReadValueTracked(s: string, path: Path)
    requires s != [] && IsStop(s[0]) && !IsCloser(s[0]) && Settled(path)
    requires Keyed(s, path).Some? && ScanValue(Keyed(s, path).value.1).Some?
    ensures var (key, v) := Keyed(s, path).value;
            var (token, rest) := ScanValue(v).value;
            if path.Outside? && token.Leaf? then WellFormed(token.node) && AsParsed(token.node, true) == token.node
            else Reading(rest, path.Attach(key, token))
  {
    var (key, v) := Keyed(s, path).value;
    var (token, rest) := ScanValue(v).value;
    if path.InObject() {
      ScannedKey(s);
    }
    if token.Open? {
      OpenTracked(path, key, token.isObj, rest);
    } else if path.Outside? {
      ScannedLeaf(v);
    } else {
      LeafTracked(path, key, v);
    }
  }

  /** Whatever the reader returns is well-formed, with the flags of AsParsed. */
  lemma {:induction false} ParseFromTracked(text: string, path: Path)
    requires Reading(text, path)
    ensures var r := ParseFrom(text, path);
            r.Some? ==> WellFormed(r.value.0) && AsParsed(r.value.0, true) == r.value.0
    decreases |text|
  {
    var s := SkipToStop(text);
    if s == [] {
    } else if IsCloser(s[0]) {
      if path.Inside? && path.top.isObj == (s[0] == '}') {
        ReadingClose(text, path, s[1..]);
        if path.parent.Inside? {
          ParseFromTracked(s[1..], path.parent.Push(path.top.Close()));
        }
      }
    } else {
      var keyed := Keyed(s, path);
      if keyed.Some? && ScanValue(keyed.value.1).Some? {
        ReadValueTracked(s, path);
        var (token, rest) := ScanValue(keyed.value.1).value;
        if !(path.Outside? && token.Leaf?) {
          ParseFromTracked(rest, path.Attach(keyed.value.0, token));
        }
      }
    }
  }

  /** The printed form of anything the reader accepts as an object or an array stands
      for the same tree, whatever text follows it. */
  lemma ReparsePrinted(text: string, trailing: string)
    requires Parse(text).Some? && Parse(text).value.Container?
    ensures Parse(Print(Parse(text).value) + trailing) == Parse(text)
  {
    ParseFromTracked(text, Outside);
    ParsePrinted(Parse(text).value, trailing);
  }

  // ---- The flags change nothing else ----

  /** The tree without its flags. */
  function Plain(n: Node): Node
    decreases n, 1
  {
    match n
    case Container(isObj, children, _) => Container(isObj, PlainAll(children), false)
    case _ => n
  }

  function PlainAll(children: seq<Child>): seq<Child>
    decreases children, 0
  {
    if children == [] then [] else [Child(children[0].key, Plain(children[0].node))] + PlainAll(children[1..])
  }

  lemma {:induction false} FillChildren(f: Frame, children: seq<Child>)
    ensures Fill(f, children).children == f.children + children
    ensures Fill(f, children).isObj == f.isObj
    decreases |children|
  {
    if children != [] {
      FillChildren(f.Add(children[0]), children[1..]);
    }
  }

  /** AsParsed keeps the tree: only flags differ. */
  lemma {:induction false} AsParsedIsSame(n: Node, root: bool)
    ensures Plain(AsParsed(n, root)) == Plain(n)
    decreases n, 1
  {
    if n.Container? {
      FillChildren(Frame("", n.isObj, [], !root), AsParsedAll(n.children));
      AsParsedAllIsSame(n.children);
      assert AsParsed(n, root) == Container(n.isObj, AsParsedAll(n.children), AsParsed(n, root).sorted);
    }
  }

  lemma {:induction false} AsParsedAllIsSame(children: seq<Child>)
    ensures PlainAll(AsParsedAll(children)) == PlainAll(children)
    decreases children, 0
  {
    if children != [] {
      AsParsedIsSame(children[0].node, false);
      AsParsedAllIsSame(children[1..]);
    }
  }
}
