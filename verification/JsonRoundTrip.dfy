/** Reading what was printed gives back the tree. */
module JsonRoundTrip {
  import opened Options
  import opened Json

  // ---- Well-formed trees ----

  /** No bare quote and no dangling backslash. */
  predicate WellEscaped(s: string) {
    s == [] ||
    if s[0] == '\\' then |s| >= 2 && WellEscaped(s[2..]) else s[0] != '\"' && WellEscaped(s[1..])
  }

  /** A spelling that the number scanner takes whole. */
  predicate NumberText(raw: string, isReal: bool) {
    NumberEnd(raw) == |raw| && isReal == (IntEnd(raw) != |raw|)
  }

  /** The reader takes a missing value before a closing brace for an empty number. */
  const MISSING: Node := Number("", false)

  predicate WellFormed(n: Node)
    decreases n, 1
  {
    match n
    case Null => true
    case Bool(_) => true
    case Str(raw) => WellEscaped(raw)
    case Number(raw, isReal) => raw != [] && (IsDigit(raw[0]) || raw[0] == '-') && NumberText(raw, isReal)
    case Container(isObj, children, _) => WellFormedAll(isObj, children)
  }

  predicate WellFormedChild(isObj: bool, c: Child, last: bool)
    decreases c, 1
  {
    && (if isObj then WellEscaped(c.key) else c.key == "")
    && (WellFormed(c.node) || (isObj && last && c.node == MISSING))
  }

  predicate WellFormedAll(isObj: bool, children: seq<Child>)
    decreases children, 0
  {
    children == [] ||
    (WellFormedChild(isObj, children[0], |children| == 1) && WellFormedAll(isObj, children[1..]))
  }

  // ---- Flags as the reader leaves them ----

  function Fill(f: Frame, children: seq<Child>): Frame
    decreases |children|
  {
    if children == [] then f else Fill(f.Add(children[0]), children[1..])
  }

  /** The same tree with every `sorted` flag as the reader would set it. */
  function AsParsed(n: Node, root: bool): Node
    decreases n, 1
  {
    match n
    case Container(isObj, children, _) =>
      Fill(Frame("", isObj, [], !root), AsParsedAll(children)).Close().node
    case _ => n
  }

  function AsParsedAll(children: seq<Child>): (r: seq<Child>)
    ensures |r| == |children|
    decreases children, 0
  {
    if children == [] then [] else
    [Child(children[0].key, AsParsed(children[0].node, false))] + AsParsedAll(children[1..])
  }

  // ---- Scanning printed text ----

  lemma {:induction false} SkipPlain(p: string, t: string)
    requires Skipped(p)
    ensures SkipToStop(p + t) == SkipToStop(t)
  {
    if p == [] {
      assert p + t == t;
    } else {
      assert (p + t)[1..] == p[1..] + t;
      SkipPlain(p[1..], t);
    }
  }

  /** Only the text from the first stop character on matters. */
  lemma ParseSame(s: string, t: string, path: Path)
    requires SkipToStop(s) == SkipToStop(t)
    ensures ParseFrom(s, path) == ParseFrom(t, path)
  {
  }

  lemma SkipText(before: string, text: string, path: Path)
    requires Skipped(before)
    ensures ParseFrom(before + text, path) == ParseFrom(text, path)
  {
    SkipPlain(before, text);
    ParseSame(before + text, text, path);
  }

  lemma {:induction false} StringEndPrinted(raw: string, tail: string)
    requires WellEscaped(raw)
    ensures StringEnd(raw + "\"" + tail) == |raw|
  {
    var s := raw + "\"" + tail;
    if raw != [] {
      if raw[0] == '\\' {
        assert s[2..] == raw[2..] + "\"" + tail;
        StringEndPrinted(raw[2..], tail);
      } else {
        assert s[1..] == raw[1..] + "\"" + tail;
        StringEndPrinted(raw[1..], tail);
      }
    }
  }

  /** The character at which every part of a number stops. */
  predicate Stopper(c: char) {
    !IsDigit(c) && c != '-' && c != '+' && c != '.' && c != 'e' && c != 'E'
  }

  /** The texts agree before position k, and the second stops every number there. */
  ghost predicate Agree(s: string, t: string, k: nat) {
    && k <= |s| && k <= |t|
    && (forall i | 0 <= i < k :: s[i] == t[i])
    && Stopper(At(t, k))
  }

  lemma {:induction false} DigitsAgree(s: string, t: string, i: nat, k: nat)
    requires Agree(s, t, k) && i <= k && Digits(s, i) <= k
    ensures Digits(t, i) == Digits(s, i)
    decreases k - i
  {
    if i < k && IsDigit(s[i]) {
      DigitsAgree(s, t, i + 1, k);
    }
  }

  lemma SignAgrees(s: string, t: string, i: nat, k: nat)
    requires Agree(s, t, k) && i <= k && Sign(s, i) <= k
    ensures Sign(t, i) == Sign(s, i)
  {
  }

  lemma FractionAgrees(s: string, t: string, i: nat, k: nat)
    requires Agree(s, t, k) && i <= k && Fraction(s, i) <= k
    ensures Fraction(t, i) == Fraction(s, i)
  {
    if At(s, i) == '.' {
      DigitsAgree(s, t, i + 1, k);
    }
  }

  lemma ExponentAgrees(s: string, t: string, i: nat, k: nat)
    requires Agree(s, t, k) && i <= k && Exponent(s, i) <= k
    ensures Exponent(t, i) == Exponent(s, i)
  {
    if At(s, i) == 'e' || At(s, i) == 'E' {
      if At(s, i + 1) == '+' || At(s, i + 1) == '-' {
        DigitsAgree(s, t, i + 2, k);
      } else {
        DigitsAgree(s, t, i + 1, k);
      }
    }
  }

  lemma FloatAgrees(s: string, t: string, i: nat, k: nat)
    requires Agree(s, t, k) && i <= k == FloatEnd(s, i)
    ensures FloatEnd(t, i) == k
  {
    var a := Sign(s, i);
    var b := Digits(s, a);
    SignAgrees(s, t, i, k);
    DigitsAgree(s, t, a, k);
    FractionAgrees(s, t, b, k);
    ExponentAgrees(s, t, Fraction(s, b), k);
  }

  /** Two texts that agree up to the end of a number hold the same number, if the
      second has nothing there that could continue it. */
  lemma NumberAgrees(s: string, t: string)
    requires Agree(s, t, NumberEnd(s))
    ensures IntEnd(t) == IntEnd(s) && NumberEnd(t) == NumberEnd(s)
  {
    var k := NumberEnd(s);
    DigitsAgree(s, t, Sign(s, 0), k);
    FloatAgrees(s, t, IntEnd(s), k);
  }

  // ---- Reading printed trees ----

  /** Whitespace by section 2 of RFC 8259. */
  predicate IsSpace(c: char) {
    c == ' ' || c == '\t' || c == '\n' || c == '\r'
  }

  predicate Delimiter(c: char) {
    c == ',' || c == '}' || c == ']' || IsSpace(c)
  }

  /** Nothing in it that the reader would stop at. */
  ghost predicate Skipped(s: string) {
    forall i | 0 <= i < |s| :: !IsStop(s[i])
  }

  /** Fit to be followed by this text: a missing value only before a closing brace. */
  ghost predicate Printable(n: Node, tail: string) {
    && tail != [] && Delimiter(tail[0])
    && (WellFormed(n) || (n == MISSING && tail[0] == '}'))
  }

  lemma NumberPrinted(raw: string, isReal: bool, tail: string)
    requires NumberText(raw, isReal) && tail != [] && Delimiter(tail[0])
    ensures NumberEnd(raw + tail) == |raw| && (IntEnd(raw + tail) != |raw|) == isReal
  {
    NumberAgrees(raw, raw + tail);
  }

  /** A printed literal is known by its first letter; the rest of it is skipped. */
  lemma LiteralPrinted(n: Node, rest: string, tail: string)
    requires n.Null? || n.Bool?
    requires rest == Print(n)[1..]
    ensures ScanValue(Print(n) + tail) == Some((Leaf(n), rest + tail))
    ensures SkipToStop(rest + tail) == SkipToStop(tail)
  {
    assert (Print(n) + tail)[1..] == rest + tail;
    SkipPlain(rest, tail);
  }

  lemma StrPrinted(raw: string, tail: string)
    requires WellEscaped(raw)
    ensures ScanValue(Print(Str(raw)) + tail) == Some((Leaf(Str(raw)), tail))
  {
    var s := Print(Str(raw)) + tail;
    assert s[1..] == raw + "\"" + tail;
    StringEndPrinted(raw, tail);
    assert s[1..][..|raw|] == raw && s[1..][|raw| + 1..] == tail;
  }

  lemma LeafPrinted(n: Node, tail: string)
    requires !n.Container? && Printable(n, tail)
    ensures var s := Print(n) + tail;
            && IsStop(s[0]) && (WellFormed(n) ==> s[0] != '}' && s[0] != ']')
            && ScanValue(s).Some? && ScanValue(s).value.0 == Leaf(n)
            && SkipToStop(ScanValue(s).value.1) == SkipToStop(tail)
  {
    match n
    case Null => LiteralPrinted(n, "ull", tail);
    case Bool(b) => LiteralPrinted(n, if b then "rue" else "alse", tail);
    case Str(raw) => StrPrinted(raw, tail);
    case Number(raw, isReal) =>
      NumberPrinted(raw, isReal, tail);
      var s := raw + tail;
      assert s[..|raw|] == raw && s[|raw|..] == tail;
  }

  /** A key in quotes, and what stands between it and its value. */
  function Quoted(key: string, between: string): string {
    "\"" + key + "\"" + between
  }

  lemma KeyPrinted(key: string, between: string, v: string)
    requires WellEscaped(key) && Skipped(between) && v != [] && IsStop(v[0])
    ensures ScanKey(Quoted(key, between) + v) == Some((key, v))
  {
    KeyScanned('\"', key, between, v);
    assert Quoted(key, between) == ['\"'] + key + "\"" + between;
  }

  /** The first character of a key is not looked at. */
  lemma KeyScanned(open: char, key: string, between: string, v: string)
    requires WellEscaped(key) && Skipped(between) && v != [] && IsStop(v[0])
    ensures ScanKey([open] + key + "\"" + between + v) == Some((key, v))
  {
    var s := [open] + key + "\"" + between + v;
    assert s[1..] == key + "\"" + (between + v);
    StringEndPrinted(key, between + v);
    assert s[1..][..|key|] == key && s[1..][|key| + 1..] == between + v;
    SkipPlain(between, v);
  }

  /** One step of the reader over a key, if the innermost container takes one, and a value. */
  lemma ReadKeyed(path: Path, key: string, between: string, v: string)
    requires path.Inside? && Skipped(between) && v != [] && IsStop(v[0])
    requires if path.top.isObj then WellEscaped(key) else key == "" && v[0] != '}' && v[0] != ']'
    ensures var s := (if path.top.isObj then Quoted(key, between) else "") + v;
            var scanned := ScanValue(v);
            ParseFrom(s, path) ==
            if scanned.None? then None else ParseFrom(scanned.value.1, path.Attach(key, scanned.value.0))
  {
    if path.top.isObj {
      KeyPrinted(key, between, v);
    } else {
      assert "" + v == v;
    }
  }

  lemma ReadValue(path: Path, key: string, v: string)
    requires path.Inside? && v != [] && IsStop(v[0])
    requires if path.top.isObj then WellEscaped(key) else key == "" && v[0] != '}' && v[0] != ']'
    ensures var s := KeyText(path.top.isObj, key) + v;
            var scanned := ScanValue(v);
            ParseFrom(s, path) ==
            if scanned.None? then None else ParseFrom(scanned.value.1, path.Attach(key, scanned.value.0))
  {
    ReadKeyed(path, key, ":", v);
    assert KeyText(true, key) == Quoted(key, ":");
  }

  /** The key of a container plays no part in filling it. */
  lemma {:induction false} FillKey(f: Frame, key: string, children: seq<Child>)
    ensures Fill(f.(key := key), children) == Fill(f, children).(key := key)
    ensures Fill(f, children).isObj == f.isObj
    decreases |children|
  {
    if children != [] {
      FillKey(f.Add(children[0]), key, children[1..]);
    }
  }

  function Opener(isObj: bool): char {
    if isObj then '{' else '['
  }

  function Closer(isObj: bool): char {
    if isObj then '}' else ']'
  }

  /** Reading the closing bracket of an inner container. */
  lemma ReadClose(path: Path, f: Frame, tail: string)
    requires path.Inside?
    ensures ParseFrom([Closer(f.isObj)] + tail, Inside(f, path)) == ParseFrom(tail, path.Push(f.Close()))
  {
    var s := [Closer(f.isObj)] + tail;
    assert SkipToStop(s) == s && s[1..] == tail;
  }

  lemma RootOpen(isObj: bool, text: string)
    ensures ParseFrom([Opener(isObj)] + text, Outside) == ParseFrom(text, Inside(Frame("", isObj, [], false), Outside))
  {
    var s := [Opener(isObj)] + text;
    assert SkipToStop(s) == s && s[1..] == text;
  }

  lemma RootClose(f: Frame, rest: string)
    ensures ParseFrom([Closer(f.isObj)] + rest, Inside(f, Outside)) == Some((f.Close().node, rest))
  {
    var s := [Closer(f.isObj)] + rest;
    assert SkipToStop(s) == s && s[1..] == rest;
  }

  lemma LeafChildPrinted(path: Path, c: Child, last: bool, tail: string)
    requires path.Inside? && WellFormedChild(path.top.isObj, c, last) && Printable(c.node, tail)
    requires !c.node.Container?
    ensures ParseFrom(KeyText(path.top.isObj, c.key) + (Print(c.node) + tail), path) == ParseFrom(tail, path.Push(c))
  {
    var v := Print(c.node) + tail;
    LeafPrinted(c.node, tail);
    ReadValue(path, c.key, v);
    ParseSame(ScanValue(v).value.1, tail, path.Push(c));
  }

  /** Reading one printed child adds exactly that child to the innermost container. */
  lemma {:induction false} ChildPrinted(path: Path, c: Child, last: bool, tail: string)
    requires path.Inside? && WellFormedChild(path.top.isObj, c, last) && Printable(c.node, tail)
    ensures ParseFrom(PrintChild(path.top.isObj, c) + tail, path) ==
            ParseFrom(tail, path.Push(Child(c.key, AsParsed(c.node, false))))
    decreases c, 1
  {
    assert PrintChild(path.top.isObj, c) + tail == KeyText(path.top.isObj, c.key) + (Print(c.node) + tail);
    if c.node.Container? {
      ContainerPrinted(path, c, tail);
    } else {
      LeafChildPrinted(path, c, last, tail);
    }
  }

  lemma {:induction false} ContainerPrinted(path: Path, c: Child, tail: string)
    requires path.Inside? && c.node.Container? && WellFormed(c.node)
    requires if path.top.isObj then WellEscaped(c.key) else c.key == ""
    ensures ParseFrom(KeyText(path.top.isObj, c.key) + (Print(c.node) + tail), path) ==
            ParseFrom(tail, path.Push(Child(c.key, AsParsed(c.node, false))))
    decreases c, 0
  {
    var n := c.node;
    var v := Print(n) + tail;
    var close := [Closer(n.isObj)] + tail;
    var f := Frame(c.key, n.isObj, [], true);
    assert v[1..] == PrintChildren(n.isObj, n.children) + close;
    ReadValue(path, c.key, v);
    ChildrenPrinted(Inside(f, path), n.children, close);
    FillKey(Frame("", n.isObj, [], true), c.key, AsParsedAll(n.children));
    ReadClose(path, Fill(f, AsParsedAll(n.children)), tail);
  }

  /** Reading a printed list of children, up to the closing bracket. */
  lemma {:induction false} ChildrenPrinted(path: Path, children: seq<Child>, tail: string)
    requires path.Inside? && WellFormedAll(path.top.isObj, children)
    requires tail != [] && tail[0] == Closer(path.top.isObj)
    ensures ParseFrom(PrintChildren(path.top.isObj, children) + tail, path) ==
            ParseFrom(tail, Inside(Fill(path.top, AsParsedAll(children)), path.parent))
    decreases children, 0
  {
    var isObj := path.top.isObj;
    if children == [] {
      assert "" + tail == tail;
    } else {
      var c, rest := children[0], children[1..];
      FillFirst(path.top, children);
      if rest == [] {
        ChildPrinted(path, c, true, tail);
      } else {
        var more := PrintChildren(isObj, rest) + tail;
        assert PrintChildren(isObj, children) + tail == PrintChild(isObj, c) + ("," + more);
        ChildPrinted(path, c, false, "," + more);
        var path' := path.Push(Child(c.key, AsParsed(c.node, false)));
        SkipComma(more, path');
        ChildrenPrinted(path', rest, tail);
      }
    }
  }

  lemma SkipComma(more: string, path: Path)
    ensures ParseFrom("," + more, path) == ParseFrom(more, path)
  {
    SkipText(",", more, path);
  }

  lemma FillFirst(f: Frame, children: seq<Child>)
    requires children != []
    ensures var c := children[0];
            Fill(f, AsParsedAll(children)) ==
            Fill(f.Add(Child(c.key, AsParsed(c.node, false))), AsParsedAll(children[1..]))
  {
    assert AsParsedAll(children)[1..] == AsParsedAll(children[1..]);
  }

  /** Round trip: printing any object or array and reading it back, whatever text
      follows, gives the same tree. */
  lemma ParsePrinted(n: Node, trailing: string)
    requires n.Container? && WellFormed(n)
    ensures Parse(Print(n) + trailing) == Some(AsParsed(n, true))
  {
    var close := [Closer(n.isObj)] + trailing;
    var f, children := Frame("", n.isObj, [], false), AsParsedAll(n.children);
    assert Print(n) + trailing == [Opener(n.isObj)] + (PrintChildren(n.isObj, n.children) + close);
    RootOpen(n.isObj, PrintChildren(n.isObj, n.children) + close);
    ChildrenPrinted(Inside(f, Outside), n.children, close);
    FillKey(f, "", children);
    RootClose(Fill(f, children), trailing);
  }
}
