/** The language of the reader: which texts it accepts, exactly, and with which tree.

    Between tokens it skips everything that is not the start of a value or a bracket;
    it does not look at the first character of a key; a member may lack its value
    before a closing bracket; and it never looks beyond the end of the root.
  */
module JsonGrammar {
  import opened Options
  import opened Json
  import opened JsonRoundTrip
  import opened JsonClosure

  /** A value as it is written: a word, or a group of items and what is skipped before
      its closing bracket. */
  datatype Loose = Word(text: string, node: Node) | Group(isObj: bool, items: seq<Item>, end: string)

  /** What is skipped before it; for a member of an object the character before the key,
      the key and what is skipped after its closing quote; the value. */
  datatype Item = Item(before: string, open: string, key: string, between: string, value: Loose)

  // ---- Texts and trees ----

  function Header(isObj: bool, it: Item): string {
    if isObj then it.open + it.key + "\"" + it.between else ""
  }

  function Text(g: Loose): string
    decreases g, 1
  {
    match g
    case Word(text, _) => text
    case Group(isObj, items, end) => [Opener(isObj)] + ItemsText(isObj, items) + end + [Closer(isObj)]
  }

  function ItemText(isObj: bool, it: Item): string
    decreases it, 1
  {
    it.before + Header(isObj, it) + Text(it.value)
  }

  function ItemsText(isObj: bool, items: seq<Item>): string
    decreases items, 0
  {
    if items == [] then "" else ItemText(isObj, items[0]) + ItemsText(isObj, items[1..])
  }

  function Tree(g: Loose): Node
    decreases g, 1
  {
    match g
    case Word(_, node) => node
    case Group(isObj, items, _) => Container(isObj, Trees(items), false)
  }

  function Trees(items: seq<Item>): seq<Child>
    decreases items, 0
  {
    if items == [] then [] else [Child(items[0].key, Tree(items[0].value))] + Trees(items[1..])
  }

  // ---- What may be written ----

  /** A word for a node, in front of the given text. */
  ghost predicate Spells(text: string, node: Node, next: string) {
    match node
    case Null => text == "n"
    case Bool(b) => text == if b then "t" else "f"
    case Str(raw) => text == "\"" + raw + "\"" && WellEscaped(raw)
    case Number(raw, isReal) =>
      && text == raw && next != ""
      && (if raw == "" then IsCloser(next[0]) else IsDigit(raw[0]) || raw[0] == '-')
      && NumberEnd(raw + next) == |raw| && isReal == (IntEnd(raw + next) != |raw|)
    case Container(_, _, _) => false
  }

  ghost predicate Fits(g: Loose, next: string)
    decreases g, 1
  {
    match g
    case Word(text, node) => Spells(text, node, next)
    case Group(isObj, items, end) => Skipped(end) && FitsAll(isObj, items, end + [Closer(isObj)] + next)
  }

  ghost predicate FitsHeader(isObj: bool, it: Item) {
    && Skipped(it.before)
    && if isObj
       then |it.open| == 1 && IsStop(it.open[0]) && !IsCloser(it.open[0]) && WellEscaped(it.key) && Skipped(it.between)
       else it.open == it.key == it.between == ""
  }

  /** Only a member of an object may lack its value. */
  ghost predicate FitsItem(isObj: bool, it: Item, next: string)
    decreases it, 1
  {
    FitsHeader(isObj, it) && Fits(it.value, next) && (isObj || Text(it.value) != "")
  }

  ghost predicate FitsAll(isObj: bool, items: seq<Item>, tail: string)
    decreases items, 0
  {
    items == [] ||
    (FitsItem(isObj, items[0], ItemsText(isObj, items[1..]) + tail) && FitsAll(isObj, items[1..], tail))
  }

  // ---- Everything written so is read ----

  lemma WordScanned(text: string, node: Node, next: string)
    requires Spells(text, node, next)
    ensures var s := text + next;
            s != "" && IsStop(s[0]) && (text != "" ==> !IsCloser(s[0])) &&
            ScanValue(s) == Some((Leaf(node), next))
  {
    var s := text + next;
    match node
    case Null => assert s[1..] == next;
    case Bool(_) => assert s[1..] == next;
    case Str(raw) =>
      assert text == Print(node);
      StrPrinted(raw, next);
    case Number(raw, _) => assert s[..|raw|] == raw && s[|raw|..] == next;
  }

  lemma ValueStarts(g: Loose, next: string)
    requires Fits(g, next)
    ensures var v := Text(g) + next; v != "" && IsStop(v[0]) && (Text(g) != "" ==> !IsCloser(v[0]))
  {
    if g.Word? {
      WordScanned(g.text, g.node, next);
    }
  }

  /** Over what is skipped, and a key if the innermost container takes one. */
  lemma HeaderRead(path: Path, it: Item, v: string)
    requires path.Inside? && FitsHeader(path.top.isObj, it)
    requires v != "" && IsStop(v[0]) && (path.top.isObj || !IsCloser(v[0]))
    ensures var scanned := ScanValue(v);
            ParseFrom(it.before + Header(path.top.isObj, it) + v, path) ==
            if scanned.None? then None else ParseFrom(scanned.value.1, path.Attach(it.key, scanned.value.0))
  {
    var s := Header(path.top.isObj, it) + v;
    assert it.before + Header(path.top.isObj, it) + v == it.before + s;
    SkipText(it.before, s, path);
    if path.top.isObj {
      HeaderScanned(it, v);
      KeyedStep(s, path, it.key, v);
    } else {
      assert s == v;
      UnkeyedStep(v, path);
    }
  }

  lemma HeaderScanned(it: Item, v: string)
    requires FitsHeader(true, it) && v != "" && IsStop(v[0])
    ensures var s := Header(true, it) + v;
            s != "" && IsStop(s[0]) && !IsCloser(s[0]) && ScanKey(s) == Some((it.key, v))
  {
    KeyScanned(it.open[0], it.key, it.between, v);
    assert Header(true, it) + v == [it.open[0]] + it.key + "\"" + it.between + v;
  }

  lemma KeyedStep(s: string, path: Path, key: string, v: string)
    requires path.InObject() && s != "" && IsStop(s[0]) && !IsCloser(s[0]) && ScanKey(s) == Some((key, v))
    ensures var scanned := ScanValue(v);
            ParseFrom(s, path) ==
            if scanned.None? then None else ParseFrom(scanned.value.1, path.Attach(key, scanned.value.0))
  {
  }

  lemma UnkeyedStep(v: string, path: Path)
    requires path.Inside? && !path.top.isObj && v != "" && IsStop(v[0]) && !IsCloser(v[0])
    ensures var scanned := ScanValue(v);
            ParseFrom(v, path) ==
            if scanned.None? then None else ParseFrom(scanned.value.1, path.Attach("", scanned.value.0))
  {
  }

  ghost function Kid(it: Item): Child {
    Child(it.key, AsParsed(Tree(it.value), false))
  }

  lemma {:induction false} ItemRead(path: Path, it: Item, next: string)
    requires path.Inside? && FitsItem(path.top.isObj, it, next)
    ensures ParseFrom(ItemText(path.top.isObj, it) + next, path) == ParseFrom(next, path.Push(Kid(it)))
    decreases it, 1
  {
    var isObj, v := path.top.isObj, Text(it.value) + next;
    assert ItemText(isObj, it) + next == it.before + Header(isObj, it) + v;
    ValueStarts(it.value, next);
    HeaderRead(path, it, v);
    if it.value.Word? {
      WordScanned(it.value.text, it.value.node, next);
    } else {
      GroupRead(path, it, next);
    }
  }

  /** Between the brackets, and out again. */
  lemma {:induction false} GroupRead(path: Path, it: Item, next: string)
    requires path.Inside? && it.value.Group? && Fits(it.value, next)
    ensures var g := it.value;
            ParseFrom((Text(g) + next)[1..], path.Attach(it.key, Open(g.isObj))) == ParseFrom(next, path.Push(Kid(it)))
    decreases it, 0
  {
    var g := it.value;
    var f, close := Frame(it.key, g.isObj, [], true), g.end + [Closer(g.isObj)] + next;
    assert (Text(g) + next)[1..] == ItemsText(g.isObj, g.items) + close;
    ItemsRead(Inside(f, path), g.items, close);
    var filled := Fill(f, AsParsedAll(Trees(g.items)));
    SkipEnd(Inside(filled, path), g.end, g.isObj, next);
    FillKey(Frame("", g.isObj, [], true), it.key, AsParsedAll(Trees(g.items)));
    ReadClose(path, filled, next);
  }

  lemma SkipEnd(path: Path, end: string, isObj: bool, next: string)
    requires Skipped(end)
    ensures ParseFrom(end + [Closer(isObj)] + next, path) == ParseFrom([Closer(isObj)] + next, path)
  {
    var close := [Closer(isObj)] + next;
    assert end + [Closer(isObj)] + next == end + close;
    SkipText(end, close, path);
  }

  lemma {:induction false} ItemsRead(path: Path, items: seq<Item>, tail: string)
    requires path.Inside? && FitsAll(path.top.isObj, items, tail)
    ensures ParseFrom(ItemsText(path.top.isObj, items) + tail, path) ==
            ParseFrom(tail, Inside(Fill(path.top, AsParsedAll(Trees(items))), path.parent))
    decreases items, 0
  {
    if items == [] {
      assert "" + tail == tail;
    } else {
      var isObj, rest := path.top.isObj, ItemsText(path.top.isObj, items[1..]) + tail;
      assert ItemsText(isObj, items) + tail == ItemText(isObj, items[0]) + rest;
      ItemRead(path, items[0], rest);
      assert Trees(items)[1..] == Trees(items[1..]);
      FillFirst(path.top, Trees(items));
      ItemsRead(path.Push(Kid(items[0])), items[1..], tail);
    }
  }

  /** A root: a word that is not empty, or a group. */
  ghost predicate IsRoot(lead: string, g: Loose, rest: string) {
    Skipped(lead) && Fits(g, rest) && Text(g) != ""
  }

  lemma RootRead(lead: string, g: Loose, rest: string)
    requires IsRoot(lead, g, rest)
    ensures ParseFrom(lead + Text(g) + rest, Outside) == Some((AsParsed(Tree(g), true), rest))
  {
    var v := Text(g) + rest;
    assert lead + Text(g) + rest == lead + v;
    SkipText(lead, v, Outside);
    ValueStarts(g, rest);
    if g.Word? {
      WordScanned(g.text, g.node, rest);
    } else {
      RootGroupRead(g, rest);
    }
  }

  lemma RootGroupRead(g: Loose, rest: string)
    requires g.Group? && Fits(g, rest)
    ensures ParseFrom(Text(g) + rest, Outside) == Some((AsParsed(Tree(g), true), rest))
  {
    var f, tail := Frame("", g.isObj, [], false), g.end + [Closer(g.isObj)] + rest;
    assert Text(g) + rest == [Opener(g.isObj)] + (ItemsText(g.isObj, g.items) + tail);
    RootOpen(g.isObj, ItemsText(g.isObj, g.items) + tail);
    ItemsRead(Inside(f, Outside), g.items, tail);
    var filled := Fill(f, AsParsedAll(Trees(g.items)));
    SkipEnd(Inside(filled, Outside), g.end, g.isObj, rest);
    FillKey(f, "", AsParsedAll(Trees(g.items)));
    RootClose(filled, rest);
  }

  // ---- Everything read is written so ----

  /** The text before the first stop character. */
  lemma {:induction false} SkippedBefore(text: string) returns (before: string)
    ensures Skipped(before) && text == before + SkipToStop(text)
  {
    if text == "" || IsStop(text[0]) {
      before := "";
    } else {
      var rest := SkippedBefore(text[1..]);
      before := [text[0]] + rest;
    }
  }

  lemma {:induction false} EndsAtQuote(s: string)
    requires StringEnd(s) < |s|
    ensures s[StringEnd(s)] == '\"'
  {
    if s[0] == '\"' {
    } else if s[0] != '\\' {
      EndsAtQuote(s[1..]);
    } else {
      EndsAtQuote(s[2..]);
    }
  }

  /** The string and the text after its closing quote. */
  lemma StringSplit(s: string)
    requires StringEnd(s) < |s|
    ensures var n := StringEnd(s); WellEscaped(s[..n]) && s == s[..n] + "\"" + s[n + 1..]
  {
    ScannedString(s);
    EndsAtQuote(s);
    Cut(s, StringEnd(s));
  }

  lemma Cut(s: string, n: nat)
    requires n < |s|
    ensures s == s[..n] + [s[n]] + s[n + 1..]
  {
  }

  lemma StringSpelled(v: string)
    requires v != "" && v[0] == '\"' && ScanValue(v).Some?
    ensures var (token, next) := ScanValue(v).value;
            token.Leaf? && token.node.Str? && WellEscaped(token.node.raw) && v == "\"" + token.node.raw + "\"" + next
  {
    StringSplit(v[1..]);
    var n := StringEnd(v[1..]);
    FirstCut(v, v[1..][..n], v[1..][n + 1..]);
  }

  lemma FirstCut(v: string, raw: string, next: string)
    requires v != "" && v[0] == '\"' && v[1..] == raw + "\"" + next
    ensures v == "\"" + raw + "\"" + next
  {
    assert v == [v[0]] + v[1..];
  }

  lemma NumberSpelled(v: string)
    requires v != "" && (IsDigit(v[0]) || v[0] == '-' || IsCloser(v[0])) && ScanValue(v).Some?
    ensures var (token, next) := ScanValue(v).value;
            && token.Leaf? && token.node.Number? && v == token.node.raw + next
            && Spells(token.node.raw, token.node, next) && (token.node.raw == "" ==> IsCloser(v[0]))
  {
    var j := NumberEnd(v);
    assert v == v[..j] + v[j..];
  }

  lemma LeafSpelled(v: string) returns (text: string)
    requires v != "" && IsStop(v[0]) && ScanValue(v).Some? && ScanValue(v).value.0.Leaf?
    ensures var (token, next) := ScanValue(v).value;
            v == text + next && Spells(text, token.node, next) && (text == "" ==> IsCloser(v[0]))
  {
    var token := ScanValue(v).value.0;
    if v[0] == '\"' {
      StringSpelled(v);
      text := "\"" + token.node.raw + "\"";
    } else if IsDigit(v[0]) || v[0] == '-' || IsCloser(v[0]) {
      NumberSpelled(v);
      text := token.node.raw;
    } else {
      text := [v[0]];
      assert v == [v[0]] + v[1..];
    }
  }

  lemma KeySpelled(s: string) returns (key: string, between: string, v: string)
    requires s != "" && ScanKey(s).Some?
    ensures ScanKey(s) == Some((key, v)) && s == [s[0]] + key + "\"" + between + v
    ensures WellEscaped(key) && Skipped(between) && v != "" && IsStop(v[0])
  {
    var body := s[1..];
    var n := StringEnd(body);
    StringSplit(body);
    between := SkippedBefore(body[n + 1..]);
    key, v := body[..n], SkipToStop(body[n + 1..]);
    KeyPieces(s, body, key, body[n + 1..], between, v);
  }

  lemma KeyPieces(s: string, body: string, key: string, tail: string, between: string, v: string)
    requires s != "" && body == s[1..] && body == key + "\"" + tail && tail == between + v
    ensures s == [s[0]] + key + "\"" + between + v
  {
    assert s == [s[0]] + body;
    assert [s[0]] + (key + "\"" + (between + v)) == [s[0]] + key + "\"" + between + v;
  }

  /** What the reader passes before it closes the innermost container. */
  ghost predicate Passes(text: string, path: Path, items: seq<Item>, end: string, after: string)
    requires path.Inside?
  {
    var isObj := path.top.isObj;
    && Skipped(end)
    && FitsAll(isObj, items, end + [Closer(isObj)] + after)
    && text == ItemsText(isObj, items) + (end + [Closer(isObj)] + after)
  }

  /** What is left to read after that. */
  ghost predicate Leaves(text: string, path: Path, items: seq<Item>, after: string)
    requires path.Inside?
  {
    var child := Fill(path.top, AsParsedAll(Trees(items))).Close();
    ParseFrom(text, path) ==
    if path.parent.Outside? then Some((child.node, after)) else ParseFrom(after, path.parent.Push(child))
  }

  /** The reader stands before a closing bracket. */
  lemma CloseStep(text: string, path: Path, s: string)
    requires path.Inside? && s == SkipToStop(text) && s != "" && IsCloser(s[0]) && ParseFrom(text, path).Some?
    ensures s == [Closer(path.top.isObj)] + s[1..]
    ensures ParseFrom(text, path) ==
            if path.parent.Outside? then Some((path.top.Close().node, s[1..]))
            else ParseFrom(s[1..], path.parent.Push(path.top.Close()))
  {
  }

  lemma PassClose(text: string, path: Path, before: string, s: string)
    requires path.Inside? && text == before + s && Skipped(before) && s == SkipToStop(text)
    requires s != "" && IsCloser(s[0]) && ParseFrom(text, path).Some?
    ensures Passes(text, path, [], before, s[1..]) && Leaves(text, path, [], s[1..])
  {
    CloseStep(text, path, s);
    assert text == "" + (before + [Closer(path.top.isObj)] + s[1..]);
  }

  /** One more item in front. */
  lemma PassItem(text: string, path: Path, it: Item, next: string, items: seq<Item>, end: string, after: string)
    requires path.Inside? && text == ItemText(path.top.isObj, it) + next && FitsItem(path.top.isObj, it, next)
    requires Passes(next, path.Push(Kid(it)), items, end, after) && Leaves(next, path.Push(Kid(it)), items, after)
    ensures Passes(text, path, [it] + items, end, after) && Leaves(text, path, [it] + items, after)
  {
    PassesMore(path.top.isObj, it, next, items, end + [Closer(path.top.isObj)] + after);
    ItemRead(path, it, next);
    FillMore(path.top, it, items);
  }

  lemma PassesMore(isObj: bool, it: Item, next: string, items: seq<Item>, tail: string)
    requires next == ItemsText(isObj, items) + tail && FitsItem(isObj, it, next) && FitsAll(isObj, items, tail)
    ensures FitsAll(isObj, [it] + items, tail) && ItemText(isObj, it) + next == ItemsText(isObj, [it] + items) + tail
  {
    assert ([it] + items)[1..] == items;
  }

  lemma FillMore(f: Frame, it: Item, items: seq<Item>)
    ensures Fill(f, AsParsedAll(Trees([it] + items))) == Fill(f.Add(Kid(it)), AsParsedAll(Trees(items)))
  {
    var all := [it] + items;
    assert all[1..] == items;
    assert Trees(all)[1..] == Trees(items);
    FillFirst(f, Trees(all));
  }

  lemma {:induction false} Derives(text: string, path: Path) returns (items: seq<Item>, end: string, after: string)
    requires path.Inside? && ParseFrom(text, path).Some?
    ensures Passes(text, path, items, end, after) && Leaves(text, path, items, after) && |after| < |text|
    decreases |text|
  {
    var before := SkippedBefore(text);
    var s := SkipToStop(text);
    if IsCloser(s[0]) {
      PassClose(text, path, before, s);
      return [], before, s[1..];
    }
    var it, next := FirstItem(text, path, before, s);
    ItemShorter(path.top.isObj, it, next);
    ItemRead(path, it, next);
    items, end, after := Derives(next, path.Push(Kid(it)));
    PassItem(text, path, it, next, items, end, after);
    items := [it] + items;
  }

  lemma ItemShorter(isObj: bool, it: Item, next: string)
    requires FitsItem(isObj, it, next)
    ensures |next| < |ItemText(isObj, it) + next|
  {
  }

  /** The header of the next item, up to its value. */
  lemma FirstHeader(isObj: bool, before: string, s: string) returns (head: Item, v: string)
    requires Skipped(before) && s != "" && IsStop(s[0]) && !IsCloser(s[0]) && (isObj ==> ScanKey(s).Some?)
    ensures before + s == before + Header(isObj, head) + v && head.before == before && FitsHeader(isObj, head)
    ensures v != "" && IsStop(v[0]) && (isObj || !IsCloser(v[0]))
  {
    if isObj {
      var key, between;
      key, between, v := KeySpelled(s);
      head := Item(before, [s[0]], key, between, Word("", Null));
    } else {
      head, v := Item(before, "", "", "", Word("", Null)), s;
    }
    assert s == Header(isObj, head) + v;
  }

  /** In an object nothing is read without a key. */
  lemma KeyNeeded(text: string, path: Path, s: string)
    requires path.InObject() && s == SkipToStop(text) && s != "" && !IsCloser(s[0]) && ParseFrom(text, path).Some?
    ensures ScanKey(s).Some?
  {
  }

  lemma {:induction false} FirstItem(text: string, path: Path, before: string, s: string)
    returns (it: Item, next: string)
    requires path.Inside? && ParseFrom(text, path).Some?
    requires text == before + s && Skipped(before) && s == SkipToStop(text) && s != "" && !IsCloser(s[0])
    ensures text == ItemText(path.top.isObj, it) + next && FitsItem(path.top.isObj, it, next)
    decreases |text|, 2
  {
    var isObj := path.top.isObj;
    if isObj {
      KeyNeeded(text, path, s);
    }
    var head, v := FirstHeader(isObj, before, s);
    HeaderRead(path, head, v);
    ValueNeeded(path, head.key, v, ParseFrom(text, path));
    var value;
    value, next := FirstValue(path, head.key, v);
    it := head.(value := value);
    WithValue(isObj, head, v, value, next);
  }

  lemma ValueNeeded(path: Path, key: string, v: string, read: Option<(Node, string)>)
    requires path.Inside? && v != "" && read.Some?
    requires var scanned := ScanValue(v);
             read == if scanned.None? then None else ParseFrom(scanned.value.1, path.Attach(key, scanned.value.0))
    ensures ScanValue(v).Some?
    ensures ParseFrom(ScanValue(v).value.1, path.Attach(key, ScanValue(v).value.0)).Some?
  {
  }

  lemma WithValue(isObj: bool, head: Item, v: string, value: Loose, next: string)
    requires FitsHeader(isObj, head) && v != "" && (isObj || !IsCloser(v[0]))
    requires v == Text(value) + next && Fits(value, next) && (Text(value) == "" ==> IsCloser(v[0]))
    ensures var it := head.(value := value);
            head.before + Header(isObj, head) + v == ItemText(isObj, it) + next && FitsItem(isObj, it, next)
  {
    var it := head.(value := value);
    assert Header(isObj, it) == Header(isObj, head);
    assert ItemText(isObj, it) + next == it.before + Header(isObj, it) + (Text(value) + next);
  }

  lemma {:induction false} FirstValue(path: Path, key: string, v: string) returns (g: Loose, next: string)
    requires v != "" && IsStop(v[0]) && ScanValue(v).Some?
    requires var (token, rest) := ScanValue(v).value;
             token.Open? ==> ParseFrom(rest, path.Attach(key, token)).Some?
    ensures v == Text(g) + next && Fits(g, next) && (Text(g) == "" ==> IsCloser(v[0]))
    decreases |v|, 1
  {
    var (token, rest) := ScanValue(v).value;
    if token.Leaf? {
      var word := LeafSpelled(v);
      g, next := Word(word, token.node), rest;
    } else {
      g, next := FirstGroup(path, key, v, token.isObj);
    }
  }

  lemma {:induction false} FirstGroup(path: Path, key: string, v: string, isObj: bool) returns (g: Loose, next: string)
    requires v != "" && v[0] == Opener(isObj) && ParseFrom(v[1..], path.Attach(key, Open(isObj))).Some?
    ensures v == Text(g) + next && g.Group? && Fits(g, next)
    decreases |v|, 0
  {
    var items, end;
    items, end, next := Derives(v[1..], path.Attach(key, Open(isObj)));
    g := Group(isObj, items, end);
    GroupPieces(v, g, next);
  }

  lemma GroupPieces(v: string, g: Loose, next: string)
    requires g.Group? && v != "" && v[0] == Opener(g.isObj) && Skipped(g.end)
    requires var tail := g.end + [Closer(g.isObj)] + next;
             FitsAll(g.isObj, g.items, tail) && v[1..] == ItemsText(g.isObj, g.items) + tail
    ensures v == Text(g) + next && Fits(g, next)
  {
    assert v == [v[0]] + v[1..];
    Bracketed(Opener(g.isObj), ItemsText(g.isObj, g.items), g.end, Closer(g.isObj), next);
  }

  lemma Bracketed(open: char, body: string, end: string, close: char, next: string)
    ensures [open] + (body + (end + [close] + next)) == [open] + body + end + [close] + next
  {
  }

  lemma RootStep(text: string, v: string)
    requires v == SkipToStop(text) && ParseFrom(text, Outside).Some?
    ensures v != "" && IsStop(v[0]) && !IsCloser(v[0]) && ScanValue(v).Some?
    ensures var (token, rest) := ScanValue(v).value;
            token.Open? ==> ParseFrom(rest, Outside.Attach("", token)).Some?
  {
  }

  lemma RootSpelled(text: string) returns (lead: string, g: Loose, rest: string)
    requires ParseFrom(text, Outside).Some?
    ensures IsRoot(lead, g, rest) && text == lead + Text(g) + rest
  {
    lead := SkippedBefore(text);
    var v := SkipToStop(text);
    RootStep(text, v);
    g, rest := FirstValue(Outside, "", v);
    assert text == lead + (Text(g) + rest);
  }

  /** A text is accepted with this tree, leaving this rest, exactly if it is written as
      a root of the tree, after something to skip and before the rest. */
  lemma AcceptedIff(text: string, n: Node, rest: string)
    ensures ParseFrom(text, Outside) == Some((n, rest)) <==>
            exists lead, g ::
              IsRoot(lead, g, rest) && text == lead + Text(g) + rest && n == AsParsed(Tree(g), true)
  {
    if ParseFrom(text, Outside) == Some((n, rest)) {
      var lead, g, r := RootSpelled(text);
      RootRead(lead, g, r);
    }
    forall lead, g | IsRoot(lead, g, rest) && text == lead + Text(g) + rest && n == AsParsed(Tree(g), true)
      ensures ParseFrom(text, Outside) == Some((n, rest))
    {
      RootRead(lead, g, rest);
    }
  }

  /** And it is refused exactly if it is not written so in any way. */
  lemma RefusedIff(text: string)
    ensures Parse(text) == None <==> !exists lead, g, rest :: IsRoot(lead, g, rest) && text == lead + Text(g) + rest
  {
    if Parse(text).Some? {
      var lead, g, rest := RootSpelled(text);
    }
    forall lead, g, rest | IsRoot(lead, g, rest) && text == lead + Text(g) + rest ensures Parse(text).Some? {
      RootRead(lead, g, rest);
    }
  }
}
