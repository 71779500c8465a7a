/** Texts with whitespace between the tokens: every object or array that RFC 8259 admits
    reads as its tree. */
module JsonSpelling {
  import opened Options
  import opened Json
  import opened JsonRoundTrip

  ghost predicate Gap(s: string) {
    forall i | 0 <= i < |s| :: IsSpace(s[i])
  }

  /** A value with the whitespace it is written with.  The elements of an array have no
      key and no space around a colon; `inner` is the space of an empty group. */
  datatype Spelling = Atom(node: Node) | Group(isObj: bool, members: seq<Member>, inner: string)

  datatype Member = Member(
    before: string, key: string, afterKey: string, beforeValue: string, value: Spelling, after: string)

  // ---- The text and the tree of a spelling ----

  function Between(m: Member): string {
    m.afterKey + ":" + m.beforeValue
  }

  function KeySpelled(isObj: bool, m: Member): string {
    if isObj then Quoted(m.key, Between(m)) else ""
  }

  function Text(sp: Spelling): string
    decreases sp, 1
  {
    match sp
    case Atom(n) => Print(n)
    case Group(isObj, members, inner) =>
      [Opener(isObj)] + (if members == [] then inner else TextAll(isObj, members)) + [Closer(isObj)]
  }

  function MemberText(isObj: bool, m: Member): string
    decreases m, 1
  {
    m.before + KeySpelled(isObj, m) + Text(m.value) + m.after
  }

  function TextAll(isObj: bool, members: seq<Member>): string
    decreases members, 0
  {
    if members == [] then ""
    else if |members| == 1 then MemberText(isObj, members[0])
    else MemberText(isObj, members[0]) + "," + TextAll(isObj, members[1..])
  }

  function Tree(sp: Spelling): Node
    decreases sp, 1
  {
    match sp
    case Atom(n) => n
    case Group(isObj, members, _) => Container(isObj, TreeAll(members), false)
  }

  function TreeAll(members: seq<Member>): seq<Child>
    decreases members, 0
  {
    if members == [] then [] else [Child(members[0].key, Tree(members[0].value))] + TreeAll(members[1..])
  }

  // ---- What may be written ----

  ghost predicate Gaps(m: Member) {
    Gap(m.before) && Gap(m.afterKey) && Gap(m.beforeValue) && Gap(m.after)
  }

  ghost predicate Proper(sp: Spelling)
    decreases sp, 1
  {
    match sp
    case Atom(n) => !n.Container? && WellFormed(n)
    case Group(isObj, members, inner) => Gap(inner) && ProperAll(isObj, members)
  }

  ghost predicate ProperMember(isObj: bool, m: Member)
    decreases m, 1
  {
    Gaps(m) && (if isObj then WellEscaped(m.key) else m.key == "") && Proper(m.value)
  }

  ghost predicate ProperAll(isObj: bool, members: seq<Member>)
    decreases members, 0
  {
    members == [] || (ProperMember(isObj, members[0]) && ProperAll(isObj, members[1..]))
  }

  // ---- Reading it ----

  lemma GapSkipped(s: string)
    requires Gap(s)
    ensures Skipped(s)
  {
  }

  lemma BetweenSkipped(m: Member)
    requires Gaps(m)
    ensures Skipped(Between(m))
  {
    GapSkipped(m.afterKey);
    GapSkipped(m.beforeValue);
  }

  /** Leading space makes no difference. */
  lemma SkipGap(gap: string, text: string, path: Path)
    requires Gap(gap)
    ensures ParseFrom(gap + text, path) == ParseFrom(text, path)
  {
    GapSkipped(gap);
    SkipText(gap, text, path);
  }

  lemma {:induction false} MemberRead(path: Path, m: Member, tail: string)
    requires path.Inside? && ProperMember(path.top.isObj, m) && tail != [] && Delimiter(tail[0])
    ensures ParseFrom(MemberText(path.top.isObj, m) + tail, path) ==
            ParseFrom(tail, path.Push(Child(m.key, AsParsed(Tree(m.value), false))))
    decreases m, 1
  {
    var isObj, rest := path.top.isObj, m.after + tail;
    var keyed := KeySpelled(isObj, m) + (Text(m.value) + rest);
    assert MemberText(isObj, m) + tail == m.before + keyed;
    SkipGap(m.before, keyed, path);
    if m.value.Atom? {
      AtomRead(path, m, rest);
    } else {
      GroupRead(path, m, rest);
    }
    SkipGap(m.after, tail, path.Push(Child(m.key, AsParsed(Tree(m.value), false))));
  }

  lemma AtomRead(path: Path, m: Member, rest: string)
    requires path.Inside? && ProperMember(path.top.isObj, m) && m.value.Atom?
    requires rest != [] && Delimiter(rest[0])
    ensures ParseFrom(KeySpelled(path.top.isObj, m) + (Text(m.value) + rest), path) ==
            ParseFrom(rest, path.Push(Child(m.key, AsParsed(Tree(m.value), false))))
  {
    var n := m.value.node;
    var v := Print(n) + rest;
    LeafPrinted(n, rest);
    BetweenSkipped(m);
    ReadKeyed(path, m.key, Between(m), v);
    ParseSame(ScanValue(v).value.1, rest, path.Push(Child(m.key, n)));
  }

  lemma {:induction false} GroupRead(path: Path, m: Member, rest: string)
    requires path.Inside? && ProperMember(path.top.isObj, m) && m.value.Group?
    ensures ParseFrom(KeySpelled(path.top.isObj, m) + (Text(m.value) + rest), path) ==
            ParseFrom(rest, path.Push(Child(m.key, AsParsed(Tree(m.value), false))))
    decreases m, 0
  {
    var sp := m.value;
    var v, close := Text(sp) + rest, [Closer(sp.isObj)] + rest;
    var f := Frame(m.key, sp.isObj, [], true);
    BetweenSkipped(m);
    assert v[0] == Opener(sp.isObj) && v[1..] == Body(sp) + close;
    ReadKeyed(path, m.key, Between(m), v);
    BodyRead(Inside(f, path), sp, close);
    var children := AsParsedAll(TreeAll(sp.members));
    FillKey(Frame("", sp.isObj, [], true), m.key, children);
    ReadClose(path, Fill(f, children), rest);
  }

  /** What stands between the brackets. */
  function Body(sp: Spelling): string
    requires sp.Group?
  {
    if sp.members == [] then sp.inner else TextAll(sp.isObj, sp.members)
  }

  lemma {:induction false} BodyRead(path: Path, sp: Spelling, close: string)
    requires path.Inside? && sp.Group? && Proper(sp) && path.top.isObj == sp.isObj
    requires close != [] && Delimiter(close[0])
    ensures ParseFrom(Body(sp) + close, path) ==
            ParseFrom(close, Inside(Fill(path.top, AsParsedAll(TreeAll(sp.members))), path.parent))
    decreases sp, 0
  {
    if sp.members == [] {
      SkipGap(sp.inner, close, path);
    } else {
      MembersRead(path, sp.members, close);
    }
  }

  lemma {:induction false} MembersRead(path: Path, members: seq<Member>, close: string)
    requires path.Inside? && ProperAll(path.top.isObj, members) && members != []
    requires close != [] && Delimiter(close[0])
    ensures ParseFrom(TextAll(path.top.isObj, members) + close, path) ==
            ParseFrom(close, Inside(Fill(path.top, AsParsedAll(TreeAll(members))), path.parent))
    decreases members, 0
  {
    var isObj, m, rest := path.top.isObj, members[0], members[1..];
    assert TreeAll(members)[1..] == TreeAll(rest);
    FillFirst(path.top, TreeAll(members));
    if rest == [] {
      MemberRead(path, m, close);
    } else {
      var more := TextAll(isObj, rest) + close;
      assert TextAll(isObj, members) + close == MemberText(isObj, m) + ("," + more);
      MemberRead(path, m, "," + more);
      var path' := path.Push(Child(m.key, AsParsed(Tree(m.value), false)));
      SkipComma(more, path');
      MembersRead(path', rest, close);
    }
  }

  /** However an object or array is spaced, and whatever follows it, it reads as its tree. */
  lemma ParseSpelled(lead: string, sp: Spelling, trailing: string)
    requires Gap(lead) && sp.Group? && Proper(sp)
    ensures ParseFrom(lead + Text(sp) + trailing, Outside) == Some((AsParsed(Tree(sp), true), trailing))
    ensures Parse(lead + Text(sp) + trailing) == Some(AsParsed(Tree(sp), true))
  {
    var close := [Closer(sp.isObj)] + trailing;
    var f, children := Frame("", sp.isObj, [], false), AsParsedAll(TreeAll(sp.members));
    assert lead + Text(sp) + trailing == lead + ([Opener(sp.isObj)] + (Body(sp) + close));
    SkipGap(lead, [Opener(sp.isObj)] + (Body(sp) + close), Outside);
    RootOpen(sp.isObj, Body(sp) + close);
    BodyRead(Inside(f, Outside), sp, close);
    FillKey(f, "", children);
    RootClose(Fill(f, children), trailing);
  }

  // ---- The printer writes such texts ----

  /** A tree without any whitespace. */
  function Bare(n: Node): Spelling
    decreases n, 1
  {
    match n
    case Container(isObj, children, _) => Group(isObj, BareAll(children), "")
    case _ => Atom(n)
  }

  function BareAll(children: seq<Child>): (members: seq<Member>)
    ensures |members| == |children|
    decreases children, 0
  {
    if children == [] then [] else
    [Member("", children[0].key, "", "", Bare(children[0].node), "")] + BareAll(children[1..])
  }

  lemma {:induction false} PrintIsBare(n: Node)
    ensures Print(n) == Text(Bare(n))
    decreases n, 1
  {
    if n.Container? {
      PrintAllIsBare(n.isObj, n.children);
    }
  }

  lemma {:induction false} PrintAllIsBare(isObj: bool, children: seq<Child>)
    ensures PrintChildren(isObj, children) == TextAll(isObj, BareAll(children))
    decreases children, 0
  {
    if children != [] {
      PrintIsBare(children[0].node);
      PrintAllIsBare(isObj, children[1..]);
      assert BareAll(children)[1..] == BareAll(children[1..]);
      MemberIsBare(isObj, children[0]);
    }
  }

  lemma MemberIsBare(isObj: bool, c: Child)
    requires Print(c.node) == Text(Bare(c.node))
    ensures PrintChild(isObj, c) == MemberText(isObj, Member("", c.key, "", "", Bare(c.node), ""))
  {
    assert KeyText(true, c.key) == Quoted(c.key, ":");
    assert "" + ":" + "" == ":";
  }

  // ---- The leaves of RFC 8259 ----

  predicate IsHex(c: char) {
    IsDigit(c) || 'a' <= c <= 'f' || 'A' <= c <= 'F'
  }

  /** The characters of a string, section 7. */
  predicate RfcString(s: string) {
    if s == [] then true
    else if s[0] != '\\' then s[0] >= ' ' && s[0] != '\"' && RfcString(s[1..])
    else if |s| >= 2 && s[1] in "\"\\/bfnrt" then RfcString(s[2..])
    else |s| >= 6 && s[1] == 'u' && IsHex(s[2]) && IsHex(s[3]) && IsHex(s[4]) && IsHex(s[5]) && RfcString(s[6..])
  }

  lemma PlainFirst(s: string)
    requires s != [] && s[0] != '\\' && s[0] != '\"' && WellEscaped(s[1..])
    ensures WellEscaped(s)
  {
  }

  lemma {:induction false} RfcStringIs(s: string)
    requires RfcString(s)
    ensures WellEscaped(s)
  {
    if s == [] {
    } else if s[0] != '\\' {
      RfcStringIs(s[1..]);
    } else if |s| >= 2 && s[1] in "\"\\/bfnrt" {
      RfcStringIs(s[2..]);
    } else {
      RfcStringIs(s[6..]);
      assert s[5..][1..] == s[6..] && s[4..][1..] == s[5..] && s[3..][1..] == s[4..] && s[2..][1..] == s[3..];
      PlainFirst(s[5..]);
      PlainFirst(s[4..]);
      PlainFirst(s[3..]);
      PlainFirst(s[2..]);
    }
  }

  predicate AllDigits(s: string) {
    forall i | 0 <= i < |s| :: IsDigit(s[i])
  }

  /** A number, section 6: sign, integer, fraction and exponent. */
  ghost predicate RfcNumber(sign: string, whole: string, frac: string, exp: string) {
    && (sign == "" || sign == "-")
    && whole != "" && AllDigits(whole) && (whole[0] == '0' ==> |whole| == 1)
    && (frac == "" || (|frac| >= 2 && frac[0] == '.' && AllDigits(frac[1..])))
    && (exp == "" || (|exp| >= 2 && (exp[0] == 'e' || exp[0] == 'E') && ExponentDigits(exp[1..])))
  }

  ghost predicate ExponentDigits(s: string) {
    if s != "" && (s[0] == '+' || s[0] == '-') then |s| >= 2 && AllDigits(s[1..]) else s != "" && AllDigits(s)
  }

  lemma {:induction false} DigitsRun(s: string, i: nat, j: nat)
    requires i <= j <= |s| && (forall k | i <= k < j :: IsDigit(s[k])) && !IsDigit(At(s, j))
    ensures Digits(s, i) == j
    decreases j - i
  {
    if i < j {
      DigitsRun(s, i + 1, j);
    }
  }

  lemma ExponentRun(s: string, i: nat, exp: string)
    requires i <= |s| && s[i..] == exp
    requires exp == "" || (|exp| >= 2 && (exp[0] == 'e' || exp[0] == 'E') && ExponentDigits(exp[1..]))
    ensures Exponent(s, i) == |s|
  {
    if exp != "" {
      assert forall k | 0 <= k < |exp| :: s[i + k] == exp[k];
      var start := if exp[1] == '+' || exp[1] == '-' then i + 2 else i + 1;
      forall k | start <= k < |s| ensures IsDigit(s[k]) {
        assert s[k] == exp[1..][k - i - 1];
      }
      DigitsRun(s, start, |s|);
    }
  }

  lemma FractionRun(s: string, i: nat, frac: string, exp: string)
    requires i <= |s| && s[i..] == frac + exp
    requires frac == "" || (|frac| >= 2 && frac[0] == '.' && AllDigits(frac[1..]))
    requires exp != "" ==> exp[0] == 'e' || exp[0] == 'E'
    ensures Fraction(s, i) == i + |frac|
  {
    assert forall k | 0 <= k < |frac + exp| :: s[i + k] == (frac + exp)[k];
    if frac != "" {
      forall k | i + 1 <= k < i + |frac| ensures IsDigit(s[k]) {
        assert s[k] == frac[1..][k - i - 1];
      }
      DigitsRun(s, i + 1, i + |frac|);
    }
  }

  /** The scanner takes every number of RFC 8259 whole. */
  lemma RfcNumberIs(sign: string, whole: string, frac: string, exp: string)
    requires RfcNumber(sign, whole, frac, exp)
    ensures WellFormed(Number(sign + whole + frac + exp, frac + exp != ""))
  {
    var s := sign + whole + frac + exp;
    var i := |sign| + |whole|;
    assert s == sign + whole + (frac + exp);
    assert s[i..] == frac + exp && s[i + |frac|..] == exp;
    WholeRun(s, sign, whole, frac + exp);
    FloatRun(s, i, frac, exp);
  }

  lemma WholeRun(s: string, sign: string, whole: string, rest: string)
    requires s == sign + whole + rest && (sign == "" || sign == "-") && whole != "" && AllDigits(whole)
    requires rest != "" ==> !IsDigit(rest[0])
    ensures IntEnd(s) == |sign| + |whole| && (IsDigit(s[0]) || s[0] == '-')
  {
    var i := |sign| + |whole|;
    assert forall k | |sign| <= k < i :: s[k] == whole[k - |sign|];
    DigitsRun(s, |sign|, i);
  }

  lemma FloatRun(s: string, i: nat, frac: string, exp: string)
    requires i <= |s| && s[i..] == frac + exp && i + |frac| <= |s| && s[i + |frac|..] == exp
    requires frac == "" || (|frac| >= 2 && frac[0] == '.' && AllDigits(frac[1..]))
    requires exp == "" || (|exp| >= 2 && (exp[0] == 'e' || exp[0] == 'E') && ExponentDigits(exp[1..]))
    ensures FloatEnd(s, i) == |s|
  {
    assert i < |s| ==> s[i] == (frac + exp)[0];
    DigitsRun(s, i, i);
    FractionRun(s, i, frac, exp);
    ExponentRun(s, i + |frac|, exp);
  }

  ghost predicate RfcLeaf(n: Node) {
    match n
    case Null => true
    case Bool(_) => true
    case Str(raw) => RfcString(raw)
    case Number(raw, isReal) =>
      exists sign, whole, frac, exp ::
        RfcNumber(sign, whole, frac, exp) && raw == sign + whole + frac + exp && isReal == (frac + exp != "")
    case Container(_, _, _) => false
  }

  lemma RfcLeafIs(n: Node)
    requires RfcLeaf(n)
    ensures !n.Container? && WellFormed(n)
  {
    if n.Str? {
      RfcStringIs(n.raw);
    } else if n.Number? {
      var sign, whole, frac, exp :|
        RfcNumber(sign, whole, frac, exp) && n.raw == sign + whole + frac + exp && n.isReal == (frac + exp != "");
      RfcNumberIs(sign, whole, frac, exp);
    }
  }

  /** A text of RFC 8259. */
  ghost predicate Rfc(sp: Spelling)
    decreases sp, 1
  {
    match sp
    case Atom(n) => RfcLeaf(n)
    case Group(isObj, members, inner) => Gap(inner) && RfcAll(isObj, members)
  }

  ghost predicate RfcAll(isObj: bool, members: seq<Member>)
    decreases members, 0
  {
    members == [] ||
    var m := members[0];
    && Gaps(m) && (if isObj then RfcString(m.key) else m.key == "")
    && Rfc(m.value) && RfcAll(isObj, members[1..])
  }

  lemma {:induction false} RfcIsProper(sp: Spelling)
    requires Rfc(sp)
    ensures Proper(sp)
    decreases sp, 1
  {
    match sp
    case Atom(n) => RfcLeafIs(n);
    case Group(isObj, members, _) => RfcAllIsProper(isObj, members);
  }

  lemma {:induction false} RfcAllIsProper(isObj: bool, members: seq<Member>)
    requires RfcAll(isObj, members)
    ensures ProperAll(isObj, members)
    decreases members, 0
  {
    if members != [] {
      if isObj {
        RfcStringIs(members[0].key);
      }
      RfcIsProper(members[0].value);
      RfcAllIsProper(isObj, members[1..]);
    }
  }

  /** Every object or array of RFC 8259 reads as its tree. */
  lemma ParseRfc(lead: string, sp: Spelling, trailing: string)
    requires Gap(lead) && sp.Group? && Rfc(sp)
    ensures Parse(lead + Text(sp) + trailing) == Some(AsParsed(Tree(sp), true))
  {
    RfcIsProper(sp);
    ParseSpelled(lead, sp, trailing);
  }

  // ---- What is printed is RFC 8259 ----

  /** A tree whose leaves and keys are those of the RFC. */
  ghost predicate RfcTree(n: Node)
    decreases n, 1
  {
    match n
    case Container(isObj, children, _) => RfcTrees(isObj, children)
    case _ => RfcLeaf(n)
  }

  ghost predicate RfcTrees(isObj: bool, children: seq<Child>)
    decreases children, 0
  {
    children == [] ||
    (&& (if isObj then RfcString(children[0].key) else children[0].key == "")
     && RfcTree(children[0].node) && RfcTrees(isObj, children[1..]))
  }

  lemma {:induction false} BareIsRfc(n: Node)
    requires RfcTree(n)
    ensures Rfc(Bare(n))
    decreases n, 1
  {
    if n.Container? {
      BareAllIsRfc(n.isObj, n.children);
    }
  }

  lemma {:induction false} BareAllIsRfc(isObj: bool, children: seq<Child>)
    requires RfcTrees(isObj, children)
    ensures RfcAll(isObj, BareAll(children))
    decreases children, 0
  {
    if children != [] {
      BareIsRfc(children[0].node);
      BareAllIsRfc(isObj, children[1..]);
      assert BareAll(children)[1..] == BareAll(children[1..]);
    }
  }

  lemma {:induction false} BareTree(n: Node)
    ensures AsParsed(Tree(Bare(n)), true) == AsParsed(n, true) && AsParsed(Tree(Bare(n)), false) == AsParsed(n, false)
    decreases n, 1
  {
    if n.Container? {
      BareTrees(n.children);
    }
  }

  lemma {:induction false} BareTrees(children: seq<Child>)
    ensures AsParsedAll(TreeAll(BareAll(children))) == AsParsedAll(children)
    decreases children, 0
  {
    if children != [] {
      BareTree(children[0].node);
      BareTrees(children[1..]);
      assert BareAll(children)[1..] == BareAll(children[1..]);
      assert TreeAll(BareAll(children))[1..] == TreeAll(BareAll(children[1..]));
    }
  }

  /** The printer writes a text of RFC 8259 with the tree it was given. */
  lemma PrintIsRfc(n: Node)
    requires RfcTree(n)
    ensures Rfc(Bare(n)) && Text(Bare(n)) == Print(n)
    ensures AsParsed(Tree(Bare(n)), true) == AsParsed(n, true)
  {
    PrintIsBare(n);
    BareIsRfc(n);
    BareTree(n);
  }
}
