/**
 * The behaviour of the .NET string and number routines that the TcpLika command
 * line calls: String.Split(char), String.ToUpperInvariant, and Int32.TryParse /
 * Int32.Parse with their default number style (surrounding white space, one
 * leading sign, decimal digits, 32-bit signed range).
 */
module Text {
  import opened Wrappers

  const Int32Min: int := -0x8000_0000
  const Int32Max: int := 0x7FFF_FFFF

  // ---------------------------------------------------------------------------
  // Splitting on a separator character
  // ---------------------------------------------------------------------------

  /** String.Split(sep): the pieces between separators, empty pieces kept. */
  function Split(s: string, sep: char): (parts: seq<string>)
    ensures |parts| >= 1
  {
    if s == [] then [""]
    else
      var rest := Split(s[1..], sep);
      if s[0] == sep then [""] + rest else [[s[0]] + rest[0]] + rest[1..]
  }

  /** String.Join(sep, parts): the inverse of Split. */
  function Join(parts: seq<string>, sep: char): (s: string)
    requires |parts| >= 1
  {
    if |parts| == 1 then parts[0] else parts[0] + [sep] + Join(parts[1..], sep)
  }

  /** No piece of a split text holds the separator. */
  lemma {:induction false} SplitPiecesHaveNoSeparator(s: string, sep: char)
    ensures forall k :: 0 <= k < |Split(s, sep)| ==> sep !in Split(s, sep)[k]
  {
    if s != [] {
      var rest := Split(s[1..], sep);
      SplitPiecesHaveNoSeparator(s[1..], sep);
      if s[0] != sep {
        assert sep !in [s[0]] + rest[0];
      }
    }
  }

  /** A text splits into at least two pieces exactly when it holds the separator. */
  lemma {:induction false} SplitHasTwoParts(s: string, sep: char)
    ensures |Split(s, sep)| >= 2 <==> sep in s
  {
    if s != [] {
      SplitHasTwoParts(s[1..], sep);
      assert sep in s <==> s[0] == sep || sep in s[1..];
    }
  }

  /** Split unfolded on a text given as its first character and the rest. */
  lemma SplitCons(c: char, t: string, sep: char)
    ensures Split([c] + t, sep) ==
      if c == sep then [""] + Split(t, sep)
      else [[c] + Split(t, sep)[0]] + Split(t, sep)[1..]
  {
    assert ([c] + t)[0] == c;
    assert ([c] + t)[1..] == t;
  }

  /** Growing the first piece of a concatenation grows the first piece of its front part. */
  lemma GrowFirstPiece(x: string, front: seq<string>, back: seq<string>)
    requires |front| >= 1
    ensures [x + (front + back)[0]] + (front + back)[1..] == ([x + front[0]] + front[1..]) + back
  {
    assert (front + back)[0] == front[0];
    assert (front + back)[1..] == front[1..] + back;
  }

  /** Splitting two texts joined by the separator splits each of them. */
  lemma {:induction false} SplitConcat(a: string, sep: char, b: string)
    ensures Split(a + [sep] + b, sep) == Split(a, sep) + Split(b, sep)
  {
    if a == [] {
      assert a + [sep] + b == [sep] + b;
      SplitCons(sep, b, sep);
    } else {
      var c, t := a[0], a[1..];
      assert a == [c] + t;
      assert a + [sep] + b == [c] + (t + [sep] + b);
      SplitCons(c, t + [sep] + b, sep);
      SplitCons(c, t, sep);
      SplitConcat(t, sep, b);
      if c != sep {
        GrowFirstPiece([c], Split(t, sep), Split(b, sep));
      }
    }
  }

  /** Split undoes Join whenever no piece holds the separator. */
  lemma {:induction false} SplitJoin(parts: seq<string>, sep: char)
    requires |parts| >= 1
    requires forall k :: 0 <= k < |parts| ==> sep !in parts[k]
    ensures Split(Join(parts, sep), sep) == parts
    decreases |parts|
  {
    SplitWithoutSeparator(parts[0], sep);
    if |parts| > 1 {
      var rest := parts[1..];
      forall k | 0 <= k < |rest| ensures sep !in rest[k] {
        assert rest[k] == parts[k + 1];
      }
      SplitJoin(rest, sep);
      var joined := Join(rest, sep);
      calc {
        Split(Join(parts, sep), sep);
        Split(parts[0] + [sep] + joined, sep);
        { SplitConcat(parts[0], sep, joined); }
        Split(parts[0], sep) + Split(joined, sep);
        [parts[0]] + rest;
        parts;
      }
    }
  }

  /** A text without the separator is a single piece. */
  lemma {:induction false} SplitWithoutSeparator(s: string, sep: char)
    requires sep !in s
    ensures Split(s, sep) == [s]
  {
    if s != [] {
      assert sep !in s[1..];
      SplitWithoutSeparator(s[1..], sep);
      assert s[0] != sep;
      assert [s[0]] + s[1..] == s;
    }
  }

  /** Putting a character in front of a text puts it in front of the first piece. */
  lemma JoinCons(c: char, parts: seq<string>, sep: char)
    requires |parts| >= 1
    ensures Join([[c] + parts[0]] + parts[1..], sep) == [c] + Join(parts, sep)
  {
    var p := [[c] + parts[0]] + parts[1..];
    if |parts| > 1 {
      assert p[1..] == parts[1..];
    }
  }

  /** Join undoes Split: no character of the text is lost or added. */
  lemma {:induction false} JoinSplit(s: string, sep: char)
    ensures Join(Split(s, sep), sep) == s
  {
    if s != [] {
      var rest := Split(s[1..], sep);
      JoinSplit(s[1..], sep);
      if s[0] == sep {
        assert ([""] + rest)[1..] == rest;
      } else {
        JoinCons(s[0], rest, sep);
      }
      assert s == [s[0]] + s[1..];
    }
  }

  // ---------------------------------------------------------------------------
  // Upper-casing
  // ---------------------------------------------------------------------------

  /** The invariant culture's upper case of a character, for the ASCII range. */
  function UpperChar(c: char): (u: char)
  {
    if 'a' <= c <= 'z' then (c as int - 32) as char else c
  }

  /** The lower-case partner of an upper-case ASCII letter; any other character itself. */
  function LowerChar(c: char): (l: char)
  {
    if 'A' <= c <= 'Z' then (c as int + 32) as char else c
  }

  /** String.ToUpperInvariant, character by character. */
  function ToUpperInvariant(s: string): (u: string)
    ensures |u| == |s|
  {
    if s == [] then [] else [UpperChar(s[0])] + ToUpperInvariant(s[1..])
  }

  /** Upper-casing keeps the length and works on each character alone. */
  lemma {:induction false} ToUpperInvariantAt(s: string)
    ensures |ToUpperInvariant(s)| == |s|
    ensures forall i :: 0 <= i < |s| ==> ToUpperInvariant(s)[i] == UpperChar(s[i])
    decreases |s|
  {
    if s != [] {
      ToUpperInvariantAt(s[1..]);
    }
  }

  /** A text that upper-casing leaves unchanged. */
  predicate NoLowerLetters(w: string)
  {
    forall i :: 0 <= i < |w| ==> !('a' <= w[i] <= 'z')
  }

  /** One character of an upper-cased text against a character of an upper-case word. */
  lemma UpperCharIs(c: char, d: char)
    requires !('a' <= d <= 'z')
    ensures UpperChar(c) == d <==> c == d || c == LowerChar(d)
  {
  }

  /**
   * Comparing an upper-cased text with an upper-case word is comparing without
   * regard to case: each character is the word's character or its lower-case form.
   */
  lemma UpperEqualsIgnoringCase(v: string, w: string)
    requires NoLowerLetters(w)
    ensures ToUpperInvariant(v) == w <==>
      |v| == |w| && forall i :: 0 <= i < |v| ==> v[i] == w[i] || v[i] == LowerChar(w[i])
  {
    var u := ToUpperInvariant(v);
    ToUpperInvariantAt(v);
    if |v| == |w| {
      forall i | 0 <= i < |v| ensures u[i] == w[i] <==> v[i] == w[i] || v[i] == LowerChar(w[i]) {
        UpperCharIs(v[i], w[i]);
      }
      if forall i :: 0 <= i < |v| ==> v[i] == w[i] || v[i] == LowerChar(w[i]) {
        assert forall i :: 0 <= i < |v| ==> u[i] == w[i];
        assert u == w;
      }
    }
  }

  /** The texts whose upper case is "ON" are exactly the four spellings of "on". */
  lemma UpperIsOn(v: string)
    ensures ToUpperInvariant(v) == "ON" <==> v in {"ON", "On", "oN", "on"}
  {
    UpperEqualsIgnoringCase(v, "ON");
    SpellingsOfOn(v);
  }

  /** The four spellings of "on", letter by letter. */
  lemma SpellingsOfOn(v: string)
    ensures v in {"ON", "On", "oN", "on"} <==>
      |v| == 2 && (v[0] == 'O' || v[0] == 'o') && (v[1] == 'N' || v[1] == 'n')
  {
    if |v| == 2 {
      assert v == [v[0], v[1]];
    }
  }

  /** The texts whose upper case is "OFF" are exactly the eight spellings of "off". */
  lemma UpperIsOff(v: string)
    ensures ToUpperInvariant(v) == "OFF" <==>
      v in {"OFF", "OFf", "OfF", "Off", "oFF", "oFf", "ofF", "off"}
  {
    UpperEqualsIgnoringCase(v, "OFF");
    SpellingsOfOff(v);
  }

  /** The eight spellings of "off", letter by letter. */
  lemma SpellingsOfOff(v: string)
    ensures v in {"OFF", "OFf", "OfF", "Off", "oFF", "oFf", "ofF", "off"} <==>
      |v| == 3 && (v[0] == 'O' || v[0] == 'o') && (v[1] == 'F' || v[1] == 'f') && (v[2] == 'F' || v[2] == 'f')
  {
    if |v| == 3 {
      assert v == [v[0], v[1], v[2]];
    }
  }

  // ---------------------------------------------------------------------------
  // Integer parsing and formatting
  // ---------------------------------------------------------------------------

  /** The white-space characters Int32.Parse skips: tab, line feed, vertical tab, form feed, carriage return, space. */
  predicate IsWhite(c: char)
  {
    c == ' ' || '\t' <= c <= '\r'
  }

  predicate IsDigit(c: char)
  {
    '0' <= c <= '9'
  }

  predicate AllDigits(s: string)
  {
    forall i :: 0 <= i < |s| ==> IsDigit(s[i])
  }

  /** `s` without its leading white space. */
  function TrimStart(s: string): (t: string)
  {
    if |s| > 0 && IsWhite(s[0]) then TrimStart(s[1..]) else s
  }

  /** `s` without its trailing white space. */
  function TrimEnd(s: string): (t: string)
  {
    if |s| > 0 && IsWhite(s[|s| - 1]) then TrimEnd(s[..|s| - 1]) else s
  }

  /** TrimStart removes exactly the leading white space. */
  lemma {:induction false} TrimStartIsSuffix(s: string)
    ensures var t := TrimStart(s);
            && |t| <= |s| && t == s[|s| - |t|..]
            && (forall i :: 0 <= i < |s| - |t| ==> IsWhite(s[i]))
            && (t == [] || !IsWhite(t[0]))
    decreases |s|
  {
    if |s| > 0 && IsWhite(s[0]) {
      TrimStartIsSuffix(s[1..]);
    }
  }

  /** TrimEnd removes exactly the trailing white space. */
  lemma {:induction false} TrimEndIsPrefix(s: string)
    ensures var t := TrimEnd(s);
            && |t| <= |s| && t == s[..|t|]
            && (forall i :: |t| <= i < |s| ==> IsWhite(s[i]))
            && (t == [] || !IsWhite(t[|t| - 1]))
    decreases |s|
  {
    if |s| > 0 && IsWhite(s[|s| - 1]) {
      TrimEndIsPrefix(s[..|s| - 1]);
    }
  }

  /** The value of a string of decimal digits, most significant first; None if a character is not a digit. */
  function DecimalValue(s: string): (r: Option<nat>)
  {
    if s == [] then Some(0)
    else if !IsDigit(s[|s| - 1]) then None
    else
      match DecimalValue(s[..|s| - 1])
      case None => None
      case Some(high) => Some(10 * high + (s[|s| - 1] as int - '0' as int))
  }

  /**
   * Int32.TryParse(s, out n): Some(n) when `s` is optional white space, an
   * optional '+' or '-', one or more decimal digits and optional white space,
   * and the value fits in 32 signed bits; None otherwise.
   */
  function ParseInt(s: string): (r: Option<int>)
    ensures r.Some? ==> Int32Min <= r.value <= Int32Max
  {
    var t := TrimEnd(TrimStart(s));
    var signed := |t| > 0 && (t[0] == '-' || t[0] == '+');
    var digits := if signed then t[1..] else t;
    if digits == [] then None
    else
      match DecimalValue(digits)
      case None => None
      case Some(magnitude) =>
        var n: int := if signed && t[0] == '-' then 0 - magnitude else magnitude;
        if Int32Min <= n <= Int32Max then Some(n) else None
  }

  function DigitChar(d: nat): (c: char)
    requires d < 10
    ensures IsDigit(c) && c as int - '0' as int == d
  {
    ('0' as int + d) as char
  }

  /** The shortest decimal rendering of a natural number. */
  function FormatNat(n: nat): (s: string)
    ensures |s| >= 1 && AllDigits(s) && DecimalValue(s) == Some(n)
  {
    if n < 10 then [DigitChar(n)]
    else
      var s := FormatNat(n / 10) + [DigitChar(n % 10)];
      assert s[..|s| - 1] == FormatNat(n / 10);
      s
  }

  /** Int32.ToString(): a minus sign for negative numbers, then the digits. */
  function FormatInt(n: int): (s: string)
  {
    if n < 0 then "-" + FormatNat(-n) else FormatNat(n)
  }

  /** Parsing recovers every 32-bit integer from its rendering. */
  lemma ParseFormatInt(n: int)
    requires Int32Min <= n <= Int32Max
    ensures ParseInt(FormatInt(n)) == Some(n)
  {
    var s := FormatInt(n);
    assert !IsWhite(s[0]) && !IsWhite(s[|s| - 1]);
    assert TrimStart(s) == s;
    assert TrimEnd(s) == s;
    if n < 0 {
      assert s[1..] == FormatNat(-n);
    }
  }

  /** The rendering of an integer outside the 32-bit range does not parse. */
  lemma ParseFormatIntOutOfRange(n: int)
    requires n < Int32Min || n > Int32Max
    ensures ParseInt(FormatInt(n)) == None
  {
    var s := FormatInt(n);
    assert !IsWhite(s[0]) && !IsWhite(s[|s| - 1]);
    assert TrimStart(s) == s;
    assert TrimEnd(s) == s;
    if n < 0 {
      assert s[1..] == FormatNat(-n);
    }
  }

  /** A rendered integer never holds a separator such as ':'. */
  lemma FormatIntHasNoColon(n: int)
    ensures ':' !in FormatInt(n)
  {
    var s := FormatInt(n);
    forall i | 0 <= i < |s| ensures s[i] != ':' {
      if n < 0 && i > 0 {
        assert s[i] == FormatNat(-n)[i - 1];
      }
    }
  }
}
