/** The reading loop, cursor by cursor, against the functions of module Json. */
module JsonReader {
  import opened Options
  import opened Json

  method FindStop(text: string, begin: nat) returns (i: nat)
    requires begin <= |text|
    ensures begin <= i <= |text| && text[i..] == SkipToStop(text[begin..])
    ensures (forall k | begin <= k < i :: !IsStop(text[k])) && (i < |text| ==> IsStop(text[i]))
  {
    i := begin;
    while i < |text| && !IsStop(text[i])
      invariant begin <= i <= |text| && SkipToStop(text[i..]) == SkipToStop(text[begin..])
      invariant forall k | begin <= k < i :: !IsStop(text[k])
    {
      assert text[i..][1..] == text[i + 1..];
      i := i + 1;
    }
  }

  /** The end of the string that starts at `begin`, or the end of the text. */
  method ParseString(text: string, begin: nat) returns (i: nat)
    requires begin <= |text|
    ensures begin <= i <= |text| && i == begin + StringEnd(text[begin..])
  {
    i := begin;
    while true
      invariant begin <= i <= |text| && i + StringEnd(text[i..]) == begin + StringEnd(text[begin..])
      decreases |text| - i
    {
      if i < |text| && text[i] == '\\' {
        i := i + 1;
        if i == |text| {
          return;
        }
        assert text[i - 1..][2..] == text[i + 1..];
        i := i + 1;
      } else if i < |text| && text[i] != '\"' {
        assert text[i..][1..] == text[i + 1..];
        i := i + 1;
      } else {
        return;
      }
    }
  }

  method ScanDigits(text: string, begin: nat) returns (i: nat)
    requires begin <= |text|
    ensures i == Digits(text, begin)
  {
    i := begin;
    while IsDigit(At(text, i))
      invariant begin <= i <= |text| && Digits(text, i) == Digits(text, begin)
      decreases |text| - i
    {
      i := i + 1;
    }
  }

  method ParseFloat(text: string, begin: nat) returns (i: nat)
    requires begin <= |text|
    ensures i == FloatEnd(text, begin)
  {
    i := begin;
    if At(text, i) == '-' {
      i := i + 1;
    }
    i := ScanDigits(text, i);
    if At(text, i) == '.' {
      i := ScanDigits(text, i + 1);
    }
    assert i == Fraction(text, Digits(text, Sign(text, begin)));
    if At(text, i) == 'e' || At(text, i) == 'E' {
      i := i + 1;
      if At(text, i) == '+' || At(text, i) == '-' {
        i := i + 1;
      }
      i := ScanDigits(text, i);
    }
  }

  lemma {:induction false} DigitsShift(text: string, k: nat, i: nat)
    requires k <= i <= |text|
    ensures Digits(text, i) == k + Digits(text[k..], i - k)
    decreases |text| - i
  {
    if IsDigit(At(text, i)) {
      DigitsShift(text, k, i + 1);
    }
  }

  lemma FloatShift(text: string, k: nat, i: nat)
    requires k <= i <= |text|
    ensures FloatEnd(text, i) == k + FloatEnd(text[k..], i - k)
  {
    var a := Sign(text, i);
    DigitsShift(text, k, a);
    var b := Digits(text, a);
    if At(text, b) == '.' {
      DigitsShift(text, k, b + 1);
    }
    ExponentShift(text, k, Fraction(text, b));
  }

  lemma ExponentShift(text: string, k: nat, i: nat)
    requires k <= i <= |text|
    ensures Exponent(text, i) == k + Exponent(text[k..], i - k)
  {
    if At(text, i) == 'e' || At(text, i) == 'E' {
      if At(text, i + 1) == '+' || At(text, i + 1) == '-' {
        DigitsShift(text, k, i + 2);
      } else {
        DigitsShift(text, k, i + 1);
      }
    }
  }

  /** The number at `begin`: the end of its integer part and its end. */
  method ReadNumber(text: string, begin: nat) returns (i: nat, j: nat)
    requires begin < |text|
    ensures i == begin + IntEnd(text[begin..]) && j == begin + NumberEnd(text[begin..])
  {
    i := begin;
    if text[i] == '-' {
      i := i + 1;
    }
    DigitsShift(text, begin, i);
    i := ScanDigits(text, i);
    FloatShift(text, begin, i);
    j := ParseFloat(text, i);
  }

  /** The value at `begin`: what it is and where the cursor stands after it. */
  method ReadValue(text: string, begin: nat) returns (r: Option<(Token, nat)>)
    requires begin < |text|
    ensures var scanned := ScanValue(text[begin..]);
            if scanned.None? then r.None? else
            && r.Some? && r.value.0 == scanned.value.0
            && begin <= r.value.1 <= |text| && text[r.value.1..] == scanned.value.1
  {
    var c := text[begin];
    ghost var v := text[begin..];
    if c == '{' || c == '[' {
      return Some((Open(c == '{'), begin + 1));
    } else if c == 'n' {
      return Some((Leaf(Null), begin + 1));
    } else if c == 't' || c == 'f' {
      return Some((Leaf(Bool(c == 't')), begin + 1));
    } else if c == '\"' {
      assert v[1..] == text[begin + 1..];
      var i := ParseString(text, begin + 1);
      if i == |text| {
        return None;
      }
      ghost var n := i - begin - 1;
      assert text[begin + 1..i] == v[1..][..n] && text[i + 1..] == v[1..][n + 1..];
      return Some((Leaf(Str(text[begin + 1..i])), i + 1));
    } else {
      var i, j := ReadNumber(text, begin);
      if j == |text| {
        return None;
      }
      assert text[begin..j] == v[..j - begin] && text[j..] == v[j - begin..];
      return Some((Leaf(Number(text[begin..j], i != j)), j));
    }
  }

  /** The key at `begin` and the position of its value. */
  method ReadKey(text: string, begin: nat) returns (r: Option<(string, nat)>)
    requires begin < |text|
    ensures var scanned := ScanKey(text[begin..]);
            if scanned.None? then r.None? else
            && r.Some? && r.value.0 == scanned.value.0
            && begin <= r.value.1 < |text| && text[r.value.1..] == scanned.value.1
  {
    assert text[begin..][1..] == text[begin + 1..];
    var i := ParseString(text, begin + 1);
    if i == |text| {
      return None;
    }
    var key := text[begin + 1..i];
    i := FindStop(text, i + 1);
    if i == |text| {
      return None;
    }
    return Some((key, i));
  }

  /** The whole loop.  Every turn moves the cursor forward. */
  method ParseText(text: string) returns (r: Option<Node>)
    ensures r == Parse(text)
  {
    var i := 0;
    var path := Outside;
    assert text[0..] == text;
    while true
      invariant 0 <= i <= |text| && ParseFrom(text[i..], path) == ParseFrom(text, Outside)
      decreases |text| - i
    {
      i := FindStop(text, i);
      if i == |text| {
        return None;
      }
      if text[i] == '}' || text[i] == ']' {
        if path.Outside? || path.top.isObj != (text[i] == '}') {
          return None;
        }
        if path.parent.Outside? {
          return Some(path.top.Close().node);
        }
        path := path.parent.Push(path.top.Close());
        assert text[i..][1..] == text[i + 1..];
        i := i + 1;
        continue;
      }
      var key, j := "", i;
      if path.InObject() {
        var keyed := ReadKey(text, i);
        if keyed.None? {
          return None;
        }
        key, j := keyed.value.0, keyed.value.1;
      }
      var value := ReadValue(text, j);
      if value.None? {
        return None;
      }
      var token := value.value.0;
      if path.Outside? && token.Leaf? {
        return Some(token.node);
      }
      path := path.Attach(key, token);
      i := value.value.1;
    }
  }
}
