/** Texts that are refused: those that break off, and those with a bracket of the wrong
    kind at any depth.  What follows the end of the root plays no part. */
module JsonRefusals {
  import opened Options
  import opened Json
  import opened JsonRoundTrip
  import opened JsonClosure
  import opened JsonGrammar
  import JsonSpelling

  // ---- More text changes nothing that has been read ----

  lemma {:induction false} SkipStable(s: string, q: string)
    requires SkipToStop(s) != ""
    ensures SkipToStop(s + q) == SkipToStop(s) + q
  {
    if !IsStop(s[0]) {
      assert (s + q)[1..] == s[1..] + q;
      SkipStable(s[1..], q);
    }
  }

  lemma {:induction false} StringStable(s: string, q: string)
    requires StringEnd(s) < |s|
    ensures StringEnd(s + q) == StringEnd(s)
  {
    if s[0] == '\"' {
    } else if s[0] != '\\' {
      assert (s + q)[1..] == s[1..] + q;
      StringStable(s[1..], q);
    } else {
      assert (s + q)[2..] == s[2..] + q;
      StringStable(s[2..], q);
    }
  }

  lemma {:induction false} DigitsStable(s: string, q: string, i: nat)
    requires i <= |s| && Digits(s, i) < |s|
    ensures Digits(s + q, i) == Digits(s, i)
    decreases |s| - i
  {
    if IsDigit(At(s, i)) {
      DigitsStable(s, q, i + 1);
    }
  }

  lemma ExponentStable(s: string, q: string, i: nat)
    requires i <= |s| && Exponent(s, i) < |s|
    ensures Exponent(s + q, i) == Exponent(s, i)
  {
    if At(s, i) == 'e' || At(s, i) == 'E' {
      if At(s, i + 1) == '+' || At(s, i + 1) == '-' {
        DigitsStable(s, q, i + 2);
      } else {
        DigitsStable(s, q, i + 1);
      }
    }
  }

  lemma FloatStable(s: string, q: string, i: nat)
    requires i <= |s| && FloatEnd(s, i) < |s|
    ensures FloatEnd(s + q, i) == FloatEnd(s, i)
  {
    var a := Sign(s, i);
    var b := Digits(s, a);
    DigitsStable(s, q, a);
    if At(s, b) == '.' {
      DigitsStable(s, q, b + 1);
    }
    ExponentStable(s, q, Fraction(s, b));
  }

  lemma NumberStable(s: string, q: string)
    requires NumberEnd(s) < |s|
    ensures NumberEnd(s + q) == NumberEnd(s) && IntEnd(s + q) == IntEnd(s)
  {
    DigitsStable(s, q, Sign(s, 0));
    FloatStable(s, q, IntEnd(s));
  }

  lemma ScanKeyStable(s: string, q: string)
    requires s != "" && ScanKey(s).Some?
    ensures ScanKey(s + q) == Some((ScanKey(s).value.0, ScanKey(s).value.1 + q))
  {
    var body := s[1..];
    var n := StringEnd(body);
    assert (s + q)[1..] == body + q;
    StringStable(body, q);
    assert (body + q)[..n] == body[..n] && (body + q)[n + 1..] == body[n + 1..] + q;
    SkipStable(body[n + 1..], q);
  }

  lemma ScanStringStable(s: string, q: string)
    requires s != "" && s[0] == '\"' && ScanValue(s).Some?
    ensures ScanValue(s + q) == Some((ScanValue(s).value.0, ScanValue(s).value.1 + q))
  {
    var body := s[1..];
    var n := StringEnd(body);
    assert (s + q)[1..] == body + q;
    StringStable(body, q);
    assert (body + q)[..n] == body[..n] && (body + q)[n + 1..] == body[n + 1..] + q;
  }

  lemma ScanValueStable(s: string, q: string)
    requires s != "" && IsStop(s[0]) && ScanValue(s).Some?
    ensures ScanValue(s + q) == Some((ScanValue(s).value.0, ScanValue(s).value.1 + q))
  {
    assert (s + q)[1..] == s[1..] + q;
    if s[0] == '\"' {
      ScanStringStable(s, q);
    } else if IsDigit(s[0]) || s[0] == '-' || IsCloser(s[0]) {
      NumberStable(s, q);
      var j := NumberEnd(s);
      assert (s + q)[..j] == s[..j] && (s + q)[j..] == s[j..] + q;
    }
  }

  /** Whatever follows an accepted text is left over. */
  lemma {:induction false} ParseStable(text: string, path: Path, q: string)
    requires ParseFrom(text, path).Some?
    ensures ParseFrom(text + q, path) == Some((ParseFrom(text, path).value.0, ParseFrom(text, path).value.1 + q))
    decreases |text|
  {
    var s := SkipToStop(text);
    SkipStable(text, q);
    if IsCloser(s[0]) {
      assert (s + q)[1..] == s[1..] + q;
      if path.parent.Inside? {
        ParseStable(s[1..], path.parent.Push(path.top.Close()), q);
      }
    } else {
      var (key, v) := Keyed(s, path).value;
      var (token, rest) := ScanValue(v).value;
      StepStable(s, path, q);
      if !(path.Outside? && token.Leaf?) {
        ParseStable(rest, path.Attach(key, token), q);
      }
    }
  }

  lemma StepStable(s: string, path: Path, q: string)
    requires s != "" && IsStop(s[0]) && Keyed(s, path).Some? && ScanValue(Keyed(s, path).value.1).Some?
    ensures var (key, v) := Keyed(s, path).value;
            var (token, rest) := ScanValue(v).value;
            Keyed(s + q, path) == Some((key, v + q)) && ScanValue(v + q) == Some((token, rest + q))
  {
    if path.InObject() {
      ScanKeyStable(s, q);
    }
    ScanValueStable(Keyed(s, path).value.1, q);
  }

  // ---- Texts that break off ----

  /** No proper beginning of a root is accepted. */
  lemma BrokenOff(lead: string, g: Loose, p: string)
    requires IsRoot(lead, g, "") && p < lead + Text(g)
    ensures Parse(p) == None
  {
    var whole := lead + Text(g);
    RootRead(lead, g, "");
    var q := whole[|p|..];
    assert whole + "" == whole && p + q == whole;
    if ParseFrom(p, Outside).Some? {
      ParseStable(p, Outside, q);
    }
  }

  /** In particular no proper beginning of a properly spaced object or array. */
  lemma SpelledBrokenOff(lead: string, sp: JsonSpelling.Spelling, p: string)
    requires JsonSpelling.Gap(lead) && sp.Group? && JsonSpelling.Proper(sp) && p < lead + JsonSpelling.Text(sp)
    ensures Parse(p) == None
  {
    var whole := lead + JsonSpelling.Text(sp);
    JsonSpelling.ParseSpelled(lead, sp, "");
    var q := whole[|p|..];
    assert whole + "" == whole && p + q == whole;
    if ParseFrom(p, Outside).Some? {
      ParseStable(p, Outside, q);
    }
  }

  /** A number is not accepted at the very end of the text. */
  lemma NumberAtEnd(lead: string, raw: string)
    requires Skipped(lead) && raw != "" && (IsDigit(raw[0]) || raw[0] == '-') && NumberEnd(raw) == |raw|
    ensures Parse(lead + raw) == None
  {
    SkipText(lead, raw, Outside);
  }

  // ---- Brackets of the wrong kind ----

  lemma NothingToClose(lead: string, isObj: bool, trailing: string)
    requires Skipped(lead)
    ensures Parse(lead + [Closer(isObj)] + trailing) == None
  {
    var s := [Closer(isObj)] + trailing;
    assert lead + [Closer(isObj)] + trailing == lead + s;
    SkipText(lead, s, Outside);
  }

  lemma WrongBracket(path: Path, trailing: string)
    requires path.Inside?
    ensures ParseFrom([Closer(!path.top.isObj)] + trailing, path) == None
  {
  }

  /** A properly spaced object or array with the wrong closing bracket. */
  lemma SpelledWrongBracket(lead: string, sp: JsonSpelling.Spelling, trailing: string)
    requires JsonSpelling.Gap(lead) && sp.Group? && JsonSpelling.Proper(sp)
    ensures Parse(lead + [Opener(sp.isObj)] + JsonSpelling.Body(sp) + [Closer(!sp.isObj)] + trailing) == None
  {
    var close, body := [Closer(!sp.isObj)] + trailing, JsonSpelling.Body(sp);
    var s := [Opener(sp.isObj)] + (body + close);
    assert lead + [Opener(sp.isObj)] + body + [Closer(!sp.isObj)] + trailing == lead + s;
    JsonSpelling.SkipGap(lead, s, Outside);
    RootOpen(sp.isObj, body + close);
    var f := Frame("", sp.isObj, [], false);
    JsonSpelling.BodyRead(Inside(f, Outside), sp, close);
    var children := AsParsedAll(JsonSpelling.TreeAll(sp.members));
    FillKey(f, "", children);
    WrongBracket(Inside(Fill(f, children), Outside), trailing);
  }

  /** A group that has been opened: the items read so far, and the header of the next. */
  datatype Level = Level(isObj: bool, done: seq<Item>, head: Item)

  /** Open groups, outermost first, around a group with the wrong closing bracket. */
  function Mismatched(levels: seq<Level>, g: Loose, trailing: string): string
    requires g.Group?
  {
    if levels == [] then
      [Opener(g.isObj)] + (ItemsText(g.isObj, g.items) + (g.end + [Closer(!g.isObj)] + trailing))
    else
      var l := levels[0];
      [Opener(l.isObj)] +
      (ItemsText(l.isObj, l.done) + (l.head.before + Header(l.isObj, l.head) + Mismatched(levels[1..], g, trailing)))
  }

  ghost predicate FitsMismatched(levels: seq<Level>, g: Loose, trailing: string)
    requires g.Group?
  {
    if levels == [] then
      Skipped(g.end) && FitsAll(g.isObj, g.items, g.end + [Closer(!g.isObj)] + trailing)
    else
      var l := levels[0];
      && FitsHeader(l.isObj, l.head)
      && FitsAll(l.isObj, l.done, l.head.before + Header(l.isObj, l.head) + Mismatched(levels[1..], g, trailing))
      && FitsMismatched(levels[1..], g, trailing)
  }

  lemma {:induction false} MismatchRefused(path: Path, levels: seq<Level>, g: Loose, trailing: string)
    requires g.Group? && FitsMismatched(levels, g, trailing) && path.Inside?
    requires path.top.isObj == if levels == [] then g.isObj else levels[0].isObj
    ensures ParseFrom(Mismatched(levels, g, trailing)[1..], path) == None
    decreases |levels|
  {
    if levels == [] {
      var tail := g.end + [Closer(!g.isObj)] + trailing;
      assert Mismatched(levels, g, trailing)[1..] == ItemsText(g.isObj, g.items) + tail;
      ItemsRead(path, g.items, tail);
      var filled := Inside(Fill(path.top, AsParsedAll(Trees(g.items))), path.parent);
      FillKey(path.top, "", AsParsedAll(Trees(g.items)));
      SkipEnd(filled, g.end, !g.isObj, trailing);
      WrongBracket(filled, trailing);
    } else {
      DeeperRefused(path, levels, g, trailing);
    }
  }

  lemma {:induction false} DeeperRefused(path: Path, levels: seq<Level>, g: Loose, trailing: string)
    requires g.Group? && FitsMismatched(levels, g, trailing) && path.Inside?
    requires levels != [] && path.top.isObj == levels[0].isObj
    ensures ParseFrom(Mismatched(levels, g, trailing)[1..], path) == None
    decreases |levels|, 0
  {
    var l, v := levels[0], Mismatched(levels[1..], g, trailing);
    var tail := l.head.before + Header(l.isObj, l.head) + v;
    assert Mismatched(levels, g, trailing)[1..] == ItemsText(l.isObj, l.done) + tail;
    ItemsRead(path, l.done, tail);
    var filled := Inside(Fill(path.top, AsParsedAll(Trees(l.done))), path.parent);
    FillKey(path.top, "", AsParsedAll(Trees(l.done)));
    HeaderRead(filled, l.head, v);
    var isObj := if levels[1..] == [] then g.isObj else levels[1].isObj;
    assert v[0] == Opener(isObj);
    MismatchRefused(filled.Attach(l.head.key, Open(isObj)), levels[1..], g, trailing);
  }

  /** A wrong closing bracket is refused, however deep it stands and whatever was read
      before it in the groups around it. */
  lemma RootMismatchRefused(lead: string, levels: seq<Level>, g: Loose, trailing: string)
    requires Skipped(lead) && g.Group? && FitsMismatched(levels, g, trailing)
    ensures Parse(lead + Mismatched(levels, g, trailing)) == None
  {
    var s := Mismatched(levels, g, trailing);
    var isObj := if levels == [] then g.isObj else levels[0].isObj;
    SkipText(lead, s, Outside);
    assert s == [Opener(isObj)] + s[1..];
    RootOpen(isObj, s[1..]);
    MismatchRefused(Inside(Frame("", isObj, [], false), Outside), levels, g, trailing);
  }
}
