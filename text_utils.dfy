/**
 * The TextUtils helpers whose behaviour TextUtilsTest fixes: a linear search in an array
 * of strings, whitespace normalisation with optional trimming, and left zero-padding of
 * a number.  The definitions follow what the tests assert; the implementation itself is
 * not part of this model.
 */
module TextUtils {

  // ----- geIndex -----

  /** geIndex from index `i` on: the index of the first element equal to `key`, or -1. */
  function IndexFrom(items: seq<string>, key: string, i: nat): (r: int)
    requires i <= |items|
    ensures r == -1 || i <= r < |items|
    ensures r >= 0 ==> items[r] == key && forall j :: i <= j < r ==> items[j] != key
    ensures r == -1 <==> forall j :: i <= j < |items| ==> items[j] != key
    decreases |items| - i
  {
    if i == |items| then -1
    else if items[i] == key then i
    else IndexFrom(items, key, i + 1)
  }

  function GeIndex(items: seq<string>, key: string): int
  {
    IndexFrom(items, key, 0)
  }

  /** geIndex finds exactly the first occurrence, and -1 exactly when there is none. */
  lemma GeIndexSpec(items: seq<string>, key: string)
    ensures GeIndex(items, key) == -1 <==> key !in items
    ensures GeIndex(items, key) != -1 ==>
      0 <= GeIndex(items, key) < |items| && items[GeIndex(items, key)] == key && key !in items[..GeIndex(items, key)]
  {
    var r := GeIndex(items, key);
    if key in items {
      var j :| 0 <= j < |items| && items[j] == key;
    }
    if r != -1 {
      assert forall x :: x in items[..r] ==> exists j :: 0 <= j < r && items[j] == x;
    }
  }

  lemma GeIndexExamples()
    ensures GeIndex(["apple", "banana", "cherry", "date"], "cherry") == 2
    ensures GeIndex(["apple", "banana", "cherry"], "grape") == -1
    ensures GeIndex(["apple", "banana", "cherry"], "apple") == 0
    ensures GeIndex(["apple", "banana", "cherry"], "cherry") == 2
  {
    var fruit := ["apple", "banana", "cherry"];
    assert fruit[0] != "cherry" && fruit[1] != "cherry" && fruit[0] != "grape" && fruit[1] != "grape" && fruit[2] != "grape";
  }

  // ----- normalise -----

  /** The characters normalise treats as white space. */
  predicate IsSpace(c: char)
  {
    c == ' ' || c == '\n'
  }

  /** The rest of `s` after its leading white space. */
  function SkipSpaces(s: string): (r: string)
    ensures |r| <= |s| && r == s[|s| - |r|..]
    ensures r == [] || !IsSpace(r[0])
  {
    if s != [] && IsSpace(s[0]) then SkipSpaces(s[1..]) else s
  }

  /** Every run of spaces and newlines becomes one space. */
  function Collapse(s: string): string
    decreases |s|
  {
    if s == [] then []
    else if IsSpace(s[0]) then " " + Collapse(SkipSpaces(s[1..]))
    else [s[0]] + Collapse(s[1..])
  }

  /** String.trim: leading and trailing characters up to U+0020 removed. */
  function Trim(s: string): (r: string)
    ensures r == [] || (r[0] > ' ' && r[|r| - 1] > ' ')
  {
    TrimEnd(TrimStart(s))
  }

  /** `r` is the slice of `s` from `i` on, and everything around it is a character up
      to U+0020. */
  predicate StrippedAt(s: string, i: nat, r: string)
  {
    i + |r| <= |s| && r == s[i..i + |r|] &&
    (forall k :: 0 <= k < i ==> s[k] <= ' ') && (forall k :: i + |r| <= k < |s| ==> s[k] <= ' ')
  }

  /** trim only removes characters up to U+0020, and only at either end. */
  lemma TrimSpec(s: string)
    ensures exists i: nat :: StrippedAt(s, i, Trim(s))
  {
    var t := TrimStart(s);
    var r := TrimEnd(t);
    var i := |s| - |t|;
    assert t == s[i..];
    assert r == t[..|r|];
    assert r == s[i..i + |r|];
    forall k | i + |r| <= k < |s| ensures s[k] <= ' ' {
      assert s[k] == t[k - i];
    }
    assert Trim(s) == r;
    assert StrippedAt(s, i, r);
  }

  function TrimStart(s: string): (r: string)
    ensures |r| <= |s| && r == s[|s| - |r|..]
    ensures forall k :: 0 <= k < |s| - |r| ==> s[k] <= ' '
    ensures r == [] || r[0] > ' '
  {
    if s != [] && s[0] <= ' ' then TrimStart(s[1..]) else s
  }

  function TrimEnd(s: string): (r: string)
    ensures |r| <= |s| && r == s[..|r|]
    ensures forall k :: |r| <= k < |s| ==> s[k] <= ' '
    ensures r == [] || r[|r| - 1] > ' '
  {
    if s != [] && s[|s| - 1] <= ' ' then TrimEnd(s[..|s| - 1]) else s
  }

  /** normalise(s, trim). */
  function Normalise(s: string, trim: bool): string
  {
    if trim then Trim(Collapse(s)) else Collapse(s)
  }

  /** No newline is left, and no two spaces are adjacent. */
  predicate Collapsed(r: string)
  {
    (forall k :: 0 <= k < |r| ==> r[k] != '\n') &&
    forall k :: 0 <= k < |r| - 1 ==> !(r[k] == ' ' && r[k + 1] == ' ')
  }

  /** The characters of `s` that are not white space, in order. */
  function Words(s: string): string
  {
    if s == [] then [] else (if IsSpace(s[0]) then [] else [s[0]]) + Words(s[1..])
  }

  lemma {:induction false} CollapseCollapses(s: string)
    ensures Collapsed(Collapse(s))
    ensures Collapse(s) == [] || Collapse(s)[0] == ' ' <==> s == [] || IsSpace(s[0])
    decreases |s|
  {
    if s != [] {
      if IsSpace(s[0]) {
        var t := SkipSpaces(s[1..]);
        CollapseCollapses(t);
        assert (" " + Collapse(t))[1..] == Collapse(t);
      } else {
        CollapseCollapses(s[1..]);
        assert ([s[0]] + Collapse(s[1..]))[1..] == Collapse(s[1..]);
      }
    }
  }

  lemma {:induction false} SkipSpacesWords(s: string)
    ensures Words(SkipSpaces(s)) == Words(s)
    decreases |s|
  {
    if s != [] && IsSpace(s[0]) {
      SkipSpacesWords(s[1..]);
    }
  }

  /** Collapsing changes only white space: the other characters stay, in order. */
  lemma {:induction false} CollapseKeepsWords(s: string)
    ensures Words(Collapse(s)) == Words(s)
    decreases |s|
  {
    if s != [] {
      if IsSpace(s[0]) {
        var t := SkipSpaces(s[1..]);
        CollapseKeepsWords(t);
        SkipSpacesWords(s[1..]);
        assert (" " + Collapse(t))[1..] == Collapse(t);
      } else {
        CollapseKeepsWords(s[1..]);
        assert ([s[0]] + Collapse(s[1..]))[1..] == Collapse(s[1..]);
      }
    }
  }

  /** A slice of a collapsed string is collapsed. */
  lemma CollapsedSlice(s: string, i: nat, j: nat)
    requires Collapsed(s) && i <= j <= |s|
    ensures Collapsed(s[i..j])
  {
    var t := s[i..j];
    forall k | 0 <= k < |t| ensures t[k] != '\n' {
      assert t[k] == s[i + k];
    }
    forall k | 0 <= k < |t| - 1 ensures !(t[k] == ' ' && t[k + 1] == ' ') {
      assert t[k] == s[i + k] && t[k + 1] == s[i + k + 1];
    }
  }

  lemma TrimKeepsCollapsed(s: string)
    requires Collapsed(s)
    ensures Collapsed(Trim(s))
  {
    var t := TrimStart(s);
    CollapsedSlice(s, |s| - |t|, |s|);
    CollapsedSlice(t, 0, |TrimEnd(t)|);
  }

  /** A collapsed string is left as it is. */
  lemma {:induction false} CollapseOfCollapsed(s: string)
    requires Collapsed(s)
    ensures Collapse(s) == s
    decreases |s|
  {
    if s != [] {
      var t := s[1..];
      CollapsedHead(s);
      CollapseOfCollapsed(t);
      if IsSpace(s[0]) {
        assert SkipSpaces(t) == t;
      }
      assert s == [s[0]] + t;
    }
  }

  /** What being collapsed says about the first two characters. */
  lemma CollapsedHead(s: string)
    requires Collapsed(s) && s != []
    ensures Collapsed(s[1..])
    ensures IsSpace(s[0]) ==> s[0] == ' ' && (s[1..] == [] || !IsSpace(s[1..][0]))
  {
    CollapsedSlice(s, 1, |s|);
    if |s| > 1 {
      assert s[1..][0] == s[1];
    }
  }

  lemma TrimOfTrimmed(t: string)
    requires t == [] || (t[0] > ' ' && t[|t| - 1] > ' ')
    ensures Trim(t) == t
  {
    assert TrimStart(t) == t;
    assert TrimEnd(t) == t;
  }

  /** normalise is idempotent, with or without trimming. */
  lemma NormaliseIdempotent(s: string, trim: bool)
    ensures Normalise(Normalise(s, trim), trim) == Normalise(s, trim)
  {
    var c := Collapse(s);
    CollapseCollapses(s);
    CollapseOfCollapsed(c);
    if trim {
      var t := Trim(c);
      TrimKeepsCollapsed(c);
      CollapseOfCollapsed(t);
      TrimOfTrimmed(t);
    }
  }

  /** normalise(s) leaves no newline, no two adjacent spaces and no space at either end;
      normalise(s, false) starts with a space exactly when `s` starts with white space. */
  lemma NormaliseShape(s: string, trim: bool)
    ensures Collapsed(Normalise(s, trim))
    ensures trim ==> (Normalise(s, trim) == [] ||
      (Normalise(s, trim)[0] != ' ' && Normalise(s, trim)[|Normalise(s, trim)| - 1] != ' '))
    ensures !trim ==> (Normalise(s, trim) != [] && Normalise(s, trim)[0] == ' ' <==> s != [] && IsSpace(s[0]))
  {
    CollapseCollapses(s);
    if trim {
      TrimKeepsCollapsed(Collapse(s));
    }
  }

  predicate NoSpaces(w: string)
  {
    forall k :: 0 <= k < |w| ==> !IsSpace(w[k])
  }

  predicate AllSpaces(w: string)
  {
    forall k :: 0 <= k < |w| ==> IsSpace(w[k])
  }

  /** The same collapsing as a left-to-right scan that remembers whether the last
      character it saw was white space. */
  function Squeeze(s: string, afterSpace: bool): string
  {
    if s == [] then []
    else if IsSpace(s[0]) then (if afterSpace then Squeeze(s[1..], true) else " " + Squeeze(s[1..], true))
    else [s[0]] + Squeeze(s[1..], false)
  }

  lemma {:induction false} SqueezeSkips(s: string)
    ensures Squeeze(s, true) == Squeeze(SkipSpaces(s), true)
    decreases |s|
  {
    if s != [] && IsSpace(s[0]) {
      SqueezeSkips(s[1..]);
    }
  }

  /** The run-based and the scanning definition agree. */
  lemma {:induction false} CollapseIsSqueeze(s: string)
    ensures Collapse(s) == Squeeze(s, false)
    decreases |s|
  {
    if s != [] {
      if IsSpace(s[0]) {
        var t := SkipSpaces(s[1..]);
        SqueezeSkips(s[1..]);
        CollapseIsSqueeze(t);
        if t != [] {
          assert Squeeze(t, true) == Squeeze(t, false);
        }
      } else {
        CollapseIsSqueeze(s[1..]);
      }
    }
  }

  /** A word is copied as it is. */
  lemma {:induction false} SqueezeWord(w: string, rest: string, afterSpace: bool)
    requires w != [] && NoSpaces(w)
    ensures Squeeze(w + rest, afterSpace) == w + Squeeze(rest, false)
    decreases |w|
  {
    assert (w + rest)[1..] == w[1..] + rest;
    if |w| > 1 {
      SqueezeWord(w[1..], rest, false);
    } else {
      assert w[1..] + rest == rest;
    }
  }

  /** A run of white space becomes one space, or nothing right after white space. */
  lemma {:induction false} SqueezeRun(sp: string, rest: string, afterSpace: bool)
    requires sp != [] && AllSpaces(sp)
    ensures Squeeze(sp + rest, afterSpace) == (if afterSpace then "" else " ") + Squeeze(rest, true)
    decreases |sp|
  {
    assert (sp + rest)[1..] == sp[1..] + rest;
    if |sp| > 1 {
      SqueezeRun(sp[1..], rest, true);
    } else {
      assert sp[1..] + rest == rest;
    }
  }

  /** Five words separated by runs of white space: each run becomes one space. */
  lemma ScanFiveWords(w1: string, s1: string, w2: string, s2: string, w3: string, s3: string,
                      w4: string, s4: string, w5: string)
    requires w1 != [] && w2 != [] && w3 != [] && w4 != [] && w5 != []
    requires NoSpaces(w1) && NoSpaces(w2) && NoSpaces(w3) && NoSpaces(w4) && NoSpaces(w5)
    requires s1 != [] && s2 != [] && s3 != [] && s4 != []
    requires AllSpaces(s1) && AllSpaces(s2) && AllSpaces(s3) && AllSpaces(s4)
    ensures Squeeze(w1 + (s1 + (w2 + (s2 + (w3 + (s3 + (w4 + (s4 + w5))))))), false)
      == w1 + (" " + (w2 + (" " + (w3 + (" " + (w4 + (" " + w5)))))))
  {
    SqueezeWord(w5, "", true);
    SqueezeRun(s4, w5, false);
    SqueezeWord(w4, s4 + w5, true);
    SqueezeRun(s3, w4 + (s4 + w5), false);
    SqueezeWord(w3, s3 + (w4 + (s4 + w5)), true);
    SqueezeRun(s2, w3 + (s3 + (w4 + (s4 + w5))), false);
    SqueezeWord(w2, s2 + (w3 + (s3 + (w4 + (s4 + w5)))), true);
    SqueezeRun(s1, w2 + (s2 + (w3 + (s3 + (w4 + (s4 + w5))))), false);
    SqueezeWord(w1, s1 + (w2 + (s2 + (w3 + (s3 + (w4 + (s4 + w5)))))), false);
    assert w5 + "" == w5;
  }

  /** Two words with runs of white space before, between and after them. */
  lemma ScanTwoSpacedWords(s1: string, w1: string, s2: string, w2: string, s3: string)
    requires w1 != [] && w2 != [] && NoSpaces(w1) && NoSpaces(w2)
    requires s1 != [] && s2 != [] && s3 != [] && AllSpaces(s1) && AllSpaces(s2) && AllSpaces(s3)
    ensures Squeeze(s1 + (w1 + (s2 + (w2 + s3))), false) == " " + (w1 + (" " + (w2 + " ")))
  {
    SqueezeRun(s3, "", false);
    SqueezeWord(w2, s3, true);
    SqueezeRun(s2, w2 + s3, false);
    SqueezeWord(w1, s2 + (w2 + s3), true);
    SqueezeRun(s1, w1 + (s2 + (w2 + s3)), false);
    assert s3 + "" == s3;
  }

  lemma CollapseExtraSpaces()
    ensures Collapse("hello   world  how  are  you") == "hello world how are you"
  {
    assert "hello" + ("   " + ("world" + ("  " + ("how" + ("  " + ("are" + ("  " + "you"))))))) == "hello   world  how  are  you";
    assert "hello" + (" " + ("world" + (" " + ("how" + (" " + ("are" + (" " + "you"))))))) == "hello world how are you";
    ScanFiveWords("hello", "   ", "world", "  ", "how", "  ", "are", "  ", "you");
    CollapseIsSqueeze("hello" + ("   " + ("world" + ("  " + ("how" + ("  " + ("are" + ("  " + "you"))))))));
  }

  lemma NormaliseExtraSpaces()
    ensures Normalise("hello   world  how  are  you", true) == "hello world how are you"
  {
    CollapseExtraSpaces();
    TrimOfTrimmed("hello world how are you");
  }

  lemma CollapseLeadingTrailing()
    ensures Collapse("   hello world   ") == " hello world "
  {
    assert "   " + ("hello" + (" " + ("world" + "   "))) == "   hello world   ";
    assert " " + ("hello" + (" " + ("world" + " "))) == " hello world ";
    ScanTwoSpacedWords("   ", "hello", " ", "world", "   ");
    CollapseIsSqueeze("   " + ("hello" + (" " + ("world" + "   "))));
  }

  lemma NormaliseLeadingTrailing()
    ensures Normalise("   hello world   ", true) == "hello world"
  {
    assert " hello world "[1..] == "hello world " && "hello world "[..11] == "hello world";
    assert Trim(" hello world ") == "hello world";
    CollapseLeadingTrailing();
  }

  lemma CollapseNewlines()
    ensures Collapse("hello\nworld\nhow\nare\nyou") == "hello world how are you"
  {
    assert "hello" + ("\n" + ("world" + ("\n" + ("how" + ("\n" + ("are" + ("\n" + "you"))))))) == "hello\nworld\nhow\nare\nyou";
    assert "hello" + (" " + ("world" + (" " + ("how" + (" " + ("are" + (" " + "you"))))))) == "hello world how are you";
    ScanFiveWords("hello", "\n", "world", "\n", "how", "\n", "are", "\n", "you");
    CollapseIsSqueeze("hello" + ("\n" + ("world" + ("\n" + ("how" + ("\n" + ("are" + ("\n" + "you"))))))));
  }

  lemma NormaliseNewlines()
    ensures Normalise("hello\nworld\nhow\nare\nyou", true) == "hello world how are you"
  {
    CollapseNewlines();
    TrimOfTrimmed("hello world how are you");
  }

  lemma ScanMixedWhitespace()
    ensures Squeeze("  " + ("hello" + ("  \n  " + ("world" + ("  \n  " + ("test" + "  "))))), false) == " " + ("hello" + (" " + ("world" + (" " + ("test" + " ")))))
  {
    SqueezeRun("  ", "", false);
    SqueezeWord("test", "  ", true);
    SqueezeRun("  \n  ", "test" + "  ", false);
    SqueezeWord("world", "  \n  " + ("test" + "  "), true);
    SqueezeRun("  \n  ", "world" + ("  \n  " + ("test" + "  ")), false);
    SqueezeWord("hello", "  \n  " + ("world" + ("  \n  " + ("test" + "  "))), true);
    SqueezeRun("  ", "hello" + ("  \n  " + ("world" + ("  \n  " + ("test" + "  ")))), false);
    assert "  " + "" == "  ";
  }

  lemma CollapseMixedWhitespace()
    ensures Collapse("  hello  \n  world  \n  test  ") == " hello world test "
  {
    assert "  " + ("hello" + ("  \n  " + ("world" + ("  \n  " + ("test" + "  "))))) == "  hello  \n  world  \n  test  ";
    assert " " + ("hello" + (" " + ("world" + (" " + ("test" + " "))))) == " hello world test ";
    ScanMixedWhitespace();
    CollapseIsSqueeze("  " + ("hello" + ("  \n  " + ("world" + ("  \n  " + ("test" + "  "))))));
  }

  lemma NormaliseMixedWhitespace()
    ensures Normalise("  hello  \n  world  \n  test  ", true) == "hello world test"
  {
    assert " hello world test "[1..] == "hello world test " && "hello world test "[..16] == "hello world test";
    assert Trim(" hello world test ") == "hello world test";
    CollapseMixedWhitespace();
  }

  lemma NormaliseNoTrim()
    ensures Normalise("  hello world  ", false) == " hello world "
  {
    assert "  " + ("hello" + (" " + ("world" + "  "))) == "  hello world  ";
    assert " " + ("hello" + (" " + ("world" + " "))) == " hello world ";
    ScanTwoSpacedWords("  ", "hello", " ", "world", "  ");
    CollapseIsSqueeze("  " + ("hello" + (" " + ("world" + "  "))));
  }

  lemma NormaliseEmpty()
    ensures Normalise("", true) == ""
  {
  }

  // ----- pad -----

  function DigitChar(d: nat): char
    requires d < 10
  {
    ('0' as int + d) as char
  }

  /** The decimal form of `n`, as String.valueOf gives it. */
  function Decimal(n: nat): (r: string)
    ensures |r| >= 1
    ensures forall k :: 0 <= k < |r| ==> '0' <= r[k] <= '9'
    ensures r[0] == '0' ==> n == 0
  {
    if n < 10 then [DigitChar(n)] else Decimal(n / 10) + [DigitChar(n % 10)]
  }

  /** The number a string of decimal digits denotes. */
  function Value(s: string): nat
    requires forall k :: 0 <= k < |s| ==> '0' <= s[k] <= '9'
  {
    if s == [] then 0 else Value(s[..|s| - 1]) * 10 + (s[|s| - 1] as int - '0' as int)
  }

  function Zeros(k: nat): (r: string)
    ensures |r| == k && forall i :: 0 <= i < k ==> r[i] == '0'
  {
    if k == 0 then [] else "0" + Zeros(k - 1)
  }

  /** pad(n, width): the decimal form of `n`, left-filled with '0' up to `width` characters. */
  function Pad(n: nat, width: int): string
  {
    var digits := Decimal(n);
    if |digits| >= width then digits else Zeros(width - |digits|) + digits
  }

  lemma {:induction false} ValueOfDecimal(n: nat)
    ensures Value(Decimal(n)) == n
  {
    var d := Decimal(n);
    if n >= 10 {
      ValueOfDecimal(n / 10);
      assert d == Decimal(n / 10) + [DigitChar(n % 10)];
      assert d[..|d| - 1] == Decimal(n / 10);
      assert d[|d| - 1] as int - '0' as int == n % 10;
      assert Value(d) == Value(Decimal(n / 10)) * 10 + n % 10;
    } else {
      assert d == [DigitChar(n)] && d[..0] == [];
    }
  }

  /** Leading zeros do not change the value. */
  lemma {:induction false} ValueOfZerosThen(k: nat, s: string)
    requires forall i :: 0 <= i < |s| ==> '0' <= s[i] <= '9'
    ensures Value(Zeros(k) + s) == Value(s)
    decreases |s|
  {
    if s == [] {
      assert Zeros(k) + s == Zeros(k);
      ValueOfZeros(k);
    } else {
      var t := Zeros(k) + s;
      assert t[..|t| - 1] == Zeros(k) + s[..|s| - 1];
      ValueOfZerosThen(k, s[..|s| - 1]);
    }
  }

  lemma {:induction false} ValueOfZeros(k: nat)
    ensures Value(Zeros(k)) == 0
  {
    if k > 0 {
      assert Zeros(k)[..k - 1] == Zeros(k - 1);
      ValueOfZeros(k - 1);
    }
  }

  /** pad is as long as the width asks for, or as the number needs; it pads only with
      zeros, ends with the number's decimal form and still denotes `n`. */
  lemma PadSpec(n: nat, width: int)
    ensures |Pad(n, width)| == if width > |Decimal(n)| then width else |Decimal(n)|
    ensures var z := |Pad(n, width)| - |Decimal(n)|;
      Pad(n, width)[z..] == Decimal(n) && forall i :: 0 <= i < z ==> Pad(n, width)[i] == '0'
    ensures Value(Pad(n, width)) == n
  {
    var d := Decimal(n);
    ValueOfDecimal(n);
    if |d| < width {
      assert Pad(n, width) == Zeros(width - |d|) + d;
      ZerosThen(width - |d|, d);
    } else {
      assert Pad(n, width) == d && d[0..] == d;
    }
  }

  /** `k` zeros in front of a digit string: the digits come last and keep their value. */
  lemma ZerosThen(k: nat, d: string)
    requires forall i :: 0 <= i < |d| ==> '0' <= d[i] <= '9'
    ensures |Zeros(k) + d| == k + |d| && (Zeros(k) + d)[k..] == d
    ensures forall i :: 0 <= i < k ==> (Zeros(k) + d)[i] == '0'
    ensures Value(Zeros(k) + d) == Value(d)
  {
    var p := Zeros(k) + d;
    assert p[k..] == d;
    assert forall i :: 0 <= i < k ==> p[i] == Zeros(k)[i];
    ValueOfZerosThen(k, d);
  }

  lemma PadExamples()
    ensures Pad(5, 2) == "05"
    ensures Pad(42, 2) == "42"
    ensures Pad(7, 4) == "0007"
    ensures Pad(0, 3) == "000"
  {
  }
}
