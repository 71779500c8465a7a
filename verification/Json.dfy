/** The JSON reader and printer that every protocol line goes through.

    Strings and keys are the raw text between the quotes, still escaped.  The
    reader is more lenient than RFC 8259: it skips whatever is not the start of a
    value or a bracket.  A read at the end position sees the terminating NUL of the
    string that holds the text.
  */
module Json {
  import opened Options

  /** A parsed value.  A container is an object or an array; children of an array
      have the empty key.  `sorted` is the container's claim that its children are
      in key order. */
  datatype Node =
    | Null
    | Bool(value: bool)
    | Str(raw: string)
    | Number(raw: string, isReal: bool)
    | Container(isObj: bool, children: seq<Child>, sorted: bool)

  datatype Child = Child(key: string, node: Node)

  // ---- Characters ----

  predicate IsDigit(c: char) {
    '0' <= c <= '9'
  }

  /** The start of null, true, false, a string, a number, an array or an object, or a closing bracket. */
  predicate IsStop(c: char) {
    || c == 'n' || c == 't' || c == 'f' || c == '\"' || IsDigit(c) || c == '-'
    || c == '[' || c == ']' || c == '{' || c == '}'
  }

  function At(s: string, i: nat): char {
    if i < |s| then s[i] else '\0'
  }

  /** Order of keys: lexicographic, on signed 8-bit characters. */
  function Code(c: char): int {
    if 128 <= c as int < 256 then c as int - 256 else c as int
  }

  predicate KeyLess(a: string, b: string) {
    if b == [] then false
    else if a == [] then true
    else if Code(a[0]) != Code(b[0]) then Code(a[0]) < Code(b[0])
    else KeyLess(a[1..], b[1..])
  }

  // ---- Scanning ----

  function SkipToStop(s: string): (r: string)
    ensures |r| <= |s|
    ensures r != [] ==> IsStop(r[0])
  {
    if s == [] || IsStop(s[0]) then s else SkipToStop(s[1..])
  }

  /** Length of the string body before the closing quote, or |s| if there is none. */
  function StringEnd(s: string): (n: nat)
    ensures n <= |s|
  {
    if s == [] || s[0] == '\"' then 0
    else if s[0] != '\\' then 1 + StringEnd(s[1..])
    else if |s| == 1 then 1
    else 2 + StringEnd(s[2..])
  }

  function Digits(s: string, i: nat): (j: nat)
    requires i <= |s|
    ensures i <= j <= |s|
    decreases |s| - i
  {
    if IsDigit(At(s, i)) then Digits(s, i + 1) else i
  }

  function Fraction(s: string, i: nat): (j: nat)
    requires i <= |s|
    ensures i <= j <= |s|
  {
    if At(s, i) == '.' then Digits(s, i + 1) else i
  }

  function Exponent(s: string, i: nat): (j: nat)
    requires i <= |s|
    ensures i <= j <= |s|
  {
    if At(s, i) != 'e' && At(s, i) != 'E' then i
    else if At(s, i + 1) == '+' || At(s, i + 1) == '-' then Digits(s, i + 2)
    else Digits(s, i + 1)
  }

  function Sign(s: string, i: nat): (j: nat)
    requires i <= |s|
    ensures i <= j <= |s|
  {
    if At(s, i) == '-' then i + 1 else i
  }

  function FloatEnd(s: string, i: nat): (j: nat)
    requires i <= |s|
    ensures i <= j <= |s|
  {
    Exponent(s, Fraction(s, Digits(s, Sign(s, i))))
  }

  /** End of the integer part, and end of the whole number. */
  function IntEnd(s: string): (i: nat)
    ensures i <= |s|
  {
    Digits(s, Sign(s, 0))
  }

  function NumberEnd(s: string): (j: nat)
    ensures IntEnd(s) <= j <= |s|
  {
    FloatEnd(s, IntEnd(s))
  }

  // ---- Reading ----

  datatype Token = Open(isObj: bool) | Leaf(node: Node)

  /** The value that starts at s[0], and the text after it. */
  function ScanValue(s: string): (r: Option<(Token, string)>)
    requires s != []
    ensures r.Some? ==> |r.value.1| <= |s|
    ensures r.Some? && s[0] != '}' && s[0] != ']' && IsStop(s[0]) ==> |r.value.1| < |s|
  {
    if s[0] == '{' || s[0] == '[' then Some((Open(s[0] == '{'), s[1..]))
    else if s[0] == 'n' then Some((Leaf(Null), s[1..]))
    else if s[0] == 't' || s[0] == 'f' then Some((Leaf(Bool(s[0] == 't')), s[1..]))
    else if s[0] == '\"' then
      var n := StringEnd(s[1..]);
      if n == |s[1..]| then None else Some((Leaf(Str(s[1..][..n])), s[1..][n + 1..]))
    else
      var j := NumberEnd(s);
      if j == |s| then None else Some((Leaf(Number(s[..j], IntEnd(s) != j)), s[j..]))
  }

  /** An open container on the path from the root to the cursor. */
  datatype Frame = Frame(key: string, isObj: bool, children: seq<Child>, sorted: bool) {

    function Add(c: Child): Frame {
      Frame(key, isObj, children + [c],
            sorted && !(isObj && children != [] && KeyLess(c.key, children[|children| - 1].key)))
    }

    function Close(): Child {
      Child(key, Container(isObj, children, sorted))
    }
  }

  /** The open containers, innermost first: the chain of parents of the cursor. */
  datatype Path = Outside | Inside(top: Frame, parent: Path) {

    predicate InObject() {
      Inside? && top.isObj
    }

    function Push(c: Child): Path
      requires Inside?
    {
      Inside(top.Add(c), parent)
    }

    /** After a value: one more open container, or one more child of the innermost. */
    function Attach(key: string, token: Token): Path
      requires token.Leaf? ==> Inside?
    {
      match token
      case Open(isObj) => Inside(Frame(key, isObj, [], Inside?), this)
      case Leaf(node) => Push(Child(key, node))
    }
  }

  /** The member key at s[0] and the text from the member's value on. */
  function ScanKey(s: string): (r: Option<(string, string)>)
    requires s != []
    ensures r.Some? ==> r.value.1 != [] && IsStop(r.value.1[0]) && |r.value.1| < |s|
  {
    var n := StringEnd(s[1..]);
    if n == |s[1..]| then None else
    var rest := SkipToStop(s[1..][n + 1..]);
    if rest == [] then None else Some((s[1..][..n], rest))
  }

  /** Read on with the given containers open: the root, and the text after it. */
  function ParseFrom(text: string, path: Path): Option<(Node, string)>
    decreases |text|
  {
    var s := SkipToStop(text);
    if s == [] then None
    else if s[0] == '}' || s[0] == ']' then
      if path.Outside? || path.top.isObj != (s[0] == '}') then None
      else if path.parent.Outside? then Some((path.top.Close().node, s[1..]))
      else ParseFrom(s[1..], path.parent.Push(path.top.Close()))
    else
      var keyed := if path.InObject() then ScanKey(s) else Some(("", s));
      if keyed.None? then None else
      var (key, v) := keyed.value;
      var scanned := ScanValue(v);
      if scanned.None? then None else
      var (token, rest) := scanned.value;
      if path.Outside? && token.Leaf? then Some((token.node, rest)) else ParseFrom(rest, path.Attach(key, token))
  }

  function Parse(text: string): Option<Node> {
    var read := ParseFrom(text, Outside);
    if read.None? then None else Some(read.value.0)
  }

  // ---- Printing ----

  /** The member key with its colon; array elements have none. */
  function KeyText(isObj: bool, key: string): string {
    if isObj then "\"" + key + "\":" else ""
  }

  function Print(n: Node): string
    decreases n, 1
  {
    match n
    case Null => "null"
    case Bool(b) => if b then "true" else "false"
    case Str(raw) => "\"" + raw + "\""
    case Number(raw, _) => raw
    case Container(isObj, children, _) =>
      (if isObj then "{" else "[") + PrintChildren(isObj, children) + (if isObj then "}" else "]")
  }

  function PrintChild(isObj: bool, c: Child): string
    decreases c, 1
  {
    KeyText(isObj, c.key) + Print(c.node)
  }

  function PrintChildren(isObj: bool, children: seq<Child>): string
    decreases children, 0
  {
    if children == [] then ""
    else if |children| == 1 then PrintChild(isObj, children[0])
    else PrintChild(isObj, children[0]) + "," + PrintChildren(isObj, children[1..])
  }
}
