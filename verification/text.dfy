/**
 * The handful of Python string operations the services rely on: `str(int)`,
 * `int(str)`, `str.strip`, `str.split(",")`, `", ".join`, `str.lower` and
 * substring search, each stated over `seq<char>`.
 */
module Text {
  import opened Optional

  // ---------------------------------------------------------------- digits

  predicate IsDigit(c: char) {
    '0' <= c <= '9'
  }

  predicate AllDigits(s: string) {
    forall i :: 0 <= i < |s| ==> IsDigit(s[i])
  }

  function DigitChar(d: nat): (c: char)
    requires d < 10
    ensures IsDigit(c) && c as int - '0' as int == d
  {
    ('0' as int + d) as char
  }

  /** The number a non-empty run of decimal digits denotes. */
  function DigitsValue(s: string): nat
    requires AllDigits(s)
  {
    if |s| == 0 then 0
    else DigitsValue(s[..|s| - 1]) * 10 + (s[|s| - 1] as int - '0' as int)
  }

  /** Python's `str(n)` for a non-negative integer. */
  function NatToString(n: nat): (s: string)
    ensures |s| > 0 && AllDigits(s)
    ensures DigitsValue(s) == n
    ensures |s| > 1 ==> s[0] != '0'
  {
    if n < 10 then [DigitChar(n)]
    else
      var s := NatToString(n / 10) + [DigitChar(n % 10)];
      assert s[..|s| - 1] == NatToString(n / 10);
      s
  }

  /** Python's `str(i)`: a leading minus sign for negative numbers. */
  function IntToString(i: int): (s: string)
    ensures |s| > 0
    ensures i >= 0 ==> AllDigits(s)
    ensures i < 0 ==> s[0] == '-' && AllDigits(s[1..])
  {
    if i < 0 then "-" + NatToString(-i) else NatToString(i)
  }

  /**
   * A run of ASCII digits in which single underscores may separate digits,
   * as Python's integer literals and `int()` allow: "6_379" but not "_6",
   * "6_" or "6__379".
   */
  predicate UnderscoredDigits(s: string) {
    && |s| > 0 && IsDigit(s[0]) && IsDigit(s[|s| - 1])
    && (forall i :: 0 <= i < |s| ==> IsDigit(s[i]) || s[i] == '_')
    && (forall i :: 0 <= i < |s| - 1 && s[i] == '_' ==> IsDigit(s[i + 1]))
  }

  /** `s` with every underscore removed. */
  function DropUnderscores(s: string): (r: string)
    ensures (forall i :: 0 <= i < |s| ==> IsDigit(s[i]) || s[i] == '_') ==> AllDigits(r)
    ensures AllDigits(s) ==> r == s
  {
    if |s| == 0 then []
    else (if s[0] == '_' then [] else [s[0]]) + DropUnderscores(s[1..])
  }

  lemma {:induction false} DropUnderscoresAppend(a: string, b: string)
    ensures DropUnderscores(a + b) == DropUnderscores(a) + DropUnderscores(b)
  {
    if |a| > 0 {
      assert (a + b)[1..] == a[1..] + b;
      DropUnderscoresAppend(a[1..], b);
    } else {
      assert a + b == b;
    }
  }

  /** The number an underscore-grouped digit run denotes. */
  function GroupsValue(s: string): nat
    requires UnderscoredDigits(s)
  {
    DigitsValue(DropUnderscores(s))
  }

  /**
   * Python's `int(s)` for base-10 literals in ASCII digits: surrounding
   * whitespace is ignored, then an optional sign and a digit run that may
   * be grouped by single underscores.
   */
  function ParseInt(s: string): Option<int> {
    var t := Strip(s);
    if |t| > 0 && (t[0] == '-' || t[0] == '+') then
      var ds := t[1..];
      if UnderscoredDigits(ds) then
        Some(if t[0] == '-' then -(GroupsValue(ds) as int) else GroupsValue(ds))
      else None
    else if UnderscoredDigits(t) then Some(GroupsValue(t))
    else None
  }

  /** An underscore between two digit runs does not change the number: `int("6_379") == 6379`. */
  lemma UnderscoreIgnored(a: string, b: string)
    requires |a| > 0 && |b| > 0 && AllDigits(a) && AllDigits(b)
    ensures ParseInt(a + "_" + b) == ParseInt(a + b)
    ensures ParseInt(a + b) == Some(DigitsValue(a + b))
  {
    GroupIsUnderscored(a, b);
    DropGroup(a, b);
    UnsignedParse(a + "_" + b);
    AllDigitsAppend(a, b);
    UnsignedParse(a + b);
  }

  lemma GroupIsUnderscored(a: string, b: string)
    requires |a| > 0 && |b| > 0 && AllDigits(a) && AllDigits(b)
    ensures UnderscoredDigits(a + "_" + b)
  {
    var g := a + "_" + b;
    assert g[0] == a[0] && g[|g| - 1] == b[|b| - 1];
    forall i | 0 <= i < |g| && i != |a| ensures IsDigit(g[i]) {
      if i < |a| { assert g[i] == a[i]; } else { assert g[i] == b[i - |a| - 1]; }
    }
    assert g[|a| + 1] == b[0];
  }

  lemma DropGroup(a: string, b: string)
    requires AllDigits(a) && AllDigits(b)
    ensures DropUnderscores(a + "_" + b) == a + b
  {
    DropUnderscoresAppend(a + "_", b);
    DropUnderscoresAppend(a, "_");
  }

  lemma AllDigitsAppend(a: string, b: string)
    requires AllDigits(a) && AllDigits(b)
    ensures AllDigits(a + b)
  {
    forall i | 0 <= i < |a + b| ensures IsDigit((a + b)[i]) {
      if i < |a| { assert (a + b)[i] == a[i]; } else { assert (a + b)[i] == b[i - |a|]; }
    }
  }

  /** A grouped digit run without a sign parses to the value of its digits. */
  lemma UnsignedParse(t: string)
    requires UnderscoredDigits(t)
    ensures ParseInt(t) == Some(GroupsValue(t))
  {
    NoEdgeSpaceStripIdentity(t);
  }

  /** Python accepts `int("6_379")` as 6379. */
  lemma GroupedPort()
    ensures ParseInt("6_379") == Some(6379)
  {
    var a, b := "6", "379";
    UnderscoreIgnored(a, b);
    assert a + "_" + b == "6_379";
    ParseIntToString(6379);
    assert IntToString(6379) == a + b;
  }

  /** `int(str(i)) == i`. */
  lemma ParseIntToString(i: int)
    ensures ParseInt(IntToString(i)) == Some(i)
  {
    var s := IntToString(i);
    assert !IsSpace(s[0]) && !IsSpace(s[|s| - 1]);
    NoEdgeSpaceStripIdentity(s);
    if i < 0 {
      assert s[1..] == NatToString(-i);
    }
  }

  /** Different integers print differently, so keys built from them differ. */
  lemma IntToStringInjective(a: int, b: int)
    ensures IntToString(a) == IntToString(b) ==> a == b
  {
    ParseIntToString(a);
    ParseIntToString(b);
  }

  /** Two keys with the same prefix and different integer suffixes differ. */
  lemma KeysDiffer(prefix: string, a: int, b: int)
    requires a != b
    ensures prefix + IntToString(a) != prefix + IntToString(b)
  {
    IntToStringInjective(a, b);
    assert (prefix + IntToString(a))[|prefix|..] == IntToString(a);
    assert (prefix + IntToString(b))[|prefix|..] == IntToString(b);
  }

  // ------------------------------------------------------------- whitespace

  /** The characters Python's `str.isspace` accepts. */
  predicate IsSpace(c: char) {
    || c == ' '
    || '\t' <= c <= '\r'
    || '\U{001C}' <= c <= '\U{001F}'
    || c == '\U{0085}' || c == '\U{00A0}' || c == '\U{1680}'
    || '\U{2000}' <= c <= '\U{200A}'
    || c == '\U{2028}' || c == '\U{2029}' || c == '\U{202F}' || c == '\U{205F}' || c == '\U{3000}'
  }

  predicate AllSpace(s: string) {
    forall i :: 0 <= i < |s| ==> IsSpace(s[i])
  }

  /** Neither end of `s` is whitespace: what `strip` leaves alone. */
  predicate Stripped(s: string) {
    |s| > 0 ==> !IsSpace(s[0]) && !IsSpace(s[|s| - 1])
  }

  /** How many whitespace characters `s` starts with. */
  function LeadingSpaces(s: string): (n: nat)
    ensures n <= |s| && AllSpace(s[..n])
    ensures n < |s| ==> !IsSpace(s[n])
  {
    if |s| > 0 && IsSpace(s[0]) then 1 + LeadingSpaces(s[1..]) else 0
  }

  /** How many whitespace characters `s` ends with. */
  function TrailingSpaces(s: string): (n: nat)
    ensures n <= |s| && AllSpace(s[|s| - n..])
    ensures n < |s| ==> !IsSpace(s[|s| - n - 1])
  {
    if |s| > 0 && IsSpace(s[|s| - 1]) then
      var m := TrailingSpaces(s[..|s| - 1]);
      SpaceSuffixGrows(s, m);
      1 + m
    else 0
  }

  /** A whitespace run ending just before a final whitespace character extends to the end. */
  lemma SpaceSuffixGrows(s: string, m: nat)
    requires m < |s| && IsSpace(s[|s| - 1])
    requires AllSpace(s[..|s| - 1][|s| - 1 - m..])
    ensures AllSpace(s[|s| - m - 1..])
  {
    var t := s[|s| - m - 1..];
    var u := s[..|s| - 1][|s| - 1 - m..];
    forall i | 0 <= i < m + 1 ensures IsSpace(t[i]) {
      if i < m {
        assert t[i] == u[i];
      }
    }
  }

  /**
   * Python's `str.strip()`: the leading and the trailing run of whitespace
   * are cut off, and nothing else.
   */
  function Strip(s: string): (r: string)
    ensures Stripped(r)
    ensures |r| <= |s|
  {
    var t := s[LeadingSpaces(s)..];
    var r := t[..|t| - TrailingSpaces(t)];
    assert |r| > 0 ==> r[0] == t[0];
    r
  }

  lemma NoEdgeSpaceStripIdentity(s: string)
    requires Stripped(s)
    ensures Strip(s) == s
  {
    assert LeadingSpaces(s) == 0;
    assert s[0..] == s;
  }

  /** Stripping twice changes nothing more than stripping once. */
  lemma StripIdempotent(s: string)
    ensures Strip(Strip(s)) == Strip(s)
  {
    NoEdgeSpaceStripIdentity(Strip(s));
  }

  // ---------------------------------------------------------- split and join

  /** Python's `s.split(sep)` for a one-character separator. */
  function Split(s: string, sep: char): (parts: seq<string>)
    ensures |parts| >= 1
    ensures forall k :: 0 <= k < |parts| ==> sep !in parts[k]
  {
    if |s| == 0 then [""]
    else
      var rest := Split(s[1..], sep);
      if s[0] == sep then [""] + rest
      else [[s[0]] + rest[0]] + rest[1..]
  }

  /** Python's `sep.join(parts)`. */
  function Join(parts: seq<string>, sep: string): string {
    if |parts| == 0 then ""
    else if |parts| == 1 then parts[0]
    else parts[0] + sep + Join(parts[1..], sep)
  }

  /** Text without the separator splits at the separator right after it. */
  lemma {:induction false} SplitAfterPiece(a: string, sep: char, b: string)
    requires sep !in a
    ensures Split(a + [sep] + b, sep) == [a] + Split(b, sep)
  {
    if |a| == 0 {
      assert a + [sep] + b == [sep] + b;
      assert ([sep] + b)[1..] == b;
    } else {
      SplitAfterPiece(a[1..], sep, b);
      assert (a + [sep] + b)[1..] == a[1..] + [sep] + b;
      assert [a[0]] + a[1..] == a;
    }
  }

  /** A piece without the separator is not split at all. */
  lemma {:induction false} SplitNoSeparator(a: string, sep: char)
    requires sep !in a
    ensures Split(a, sep) == [a]
  {
    if |a| > 0 {
      SplitNoSeparator(a[1..], sep);
      assert [a[0]] + a[1..] == a;
    }
  }

  /** Python's `[g.strip() for g in parts]`. */
  function StripAll(parts: seq<string>): (r: seq<string>)
    ensures |r| == |parts|
    ensures forall k :: 0 <= k < |r| ==> r[k] == Strip(parts[k])
  {
    if |parts| == 0 then [] else [Strip(parts[0])] + StripAll(parts[1..])
  }

  /**
   * Splitting on "," and stripping each piece recovers the names that
   * `", ".join(names)` wrote, provided there is at least one name and every
   * name is already stripped and contains no comma.
   */
  lemma {:induction false} SplitStripInvertsJoin(names: seq<string>)
    requires |names| > 0
    requires forall k :: 0 <= k < |names| ==> ',' !in names[k] && Stripped(names[k])
    ensures StripAll(Split(Join(names, ", "), ',')) == names
  {
    SplitStripJoinTail(names, "");
    assert "" + Join(names, ", ") == Join(names, ", ");
  }

  /**
   * The generalisation that makes the induction go through: every piece
   * after the first is preceded by the space of ", ", possibly with a
   * leading whitespace prefix `pad` on the first piece.
   */
  lemma {:induction false} SplitStripJoinTail(names: seq<string>, pad: string)
    requires |names| > 0
    requires AllSpace(pad)
    requires ',' !in pad
    requires forall k :: 0 <= k < |names| ==> ',' !in names[k] && Stripped(names[k])
    ensures StripAll(Split(pad + Join(names, ", "), ',')) == names
  {
    if |names| == 1 {
      StripPadded(pad, names[0]);
      NoCommaInPadded(pad, names[0]);
      assert pad + Join(names, ", ") == pad + names[0];
      SplitNoSeparator(pad + names[0], ',');
    } else {
      SplitStripJoinTail(names[1..], " ");
      SplitStripStep(names, pad);
    }
  }

  /** One name in front of a list whose tail already round-trips. */
  lemma SplitStripStep(names: seq<string>, pad: string)
    requires |names| > 1 && AllSpace(pad) && ',' !in pad
    requires ',' !in names[0] && Stripped(names[0])
    requires StripAll(Split(" " + Join(names[1..], ", "), ',')) == names[1..]
    ensures StripAll(Split(pad + Join(names, ", "), ',')) == names
  {
    var head := pad + names[0];
    var tail := " " + Join(names[1..], ", ");
    StripPadded(pad, names[0]);
    PadJoin(pad, names);
    NoCommaInPadded(pad, names[0]);
    SplitAfterPiece(head, ',', tail);
    assert Split(pad + Join(names, ", "), ',') == [head] + Split(tail, ',');
    StripAllCons(head, Split(tail, ','));
    assert StripAll([head] + Split(tail, ',')) == [names[0]] + names[1..];
    assert names == [names[0]] + names[1..];
  }

  /** The first comma of a joined list comes right after the first name. */
  lemma PadJoin(pad: string, names: seq<string>)
    requires |names| > 1
    ensures pad + Join(names, ", ") == (pad + names[0]) + [','] + (" " + Join(names[1..], ", "))
  {
    assert Join(names, ", ") == names[0] + ", " + Join(names[1..], ", ");
  }

  lemma NoCommaInPadded(pad: string, name: string)
    requires ',' !in pad && ',' !in name
    ensures ',' !in pad + name
  {
  }

  lemma StripAllCons(x: string, xs: seq<string>)
    ensures StripAll([x] + xs) == [Strip(x)] + StripAll(xs)
  {
    assert ([x] + xs)[1..] == xs;
  }

  /** Whitespace in front of a stripped piece is removed by `strip`. */
  lemma StripPadded(pad: string, s: string)
    requires AllSpace(pad) && Stripped(s)
    ensures Strip(pad + s) == s
  {
    LeadingSpacesAfterPad(pad, s);
    assert (pad + s)[|pad|..] == s;
    if |s| > 0 {
      assert TrailingSpaces(s) == 0;
    }
  }

  lemma {:induction false} LeadingSpacesAfterPad(pad: string, s: string)
    requires AllSpace(pad) && Stripped(s)
    ensures LeadingSpaces(pad + s) == |pad| + LeadingSpaces(s)
    ensures |s| > 0 ==> LeadingSpaces(s) == 0
  {
    if |pad| > 0 {
      assert (pad + s)[1..] == pad[1..] + s;
      LeadingSpacesAfterPad(pad[1..], s);
    } else {
      assert pad + s == s;
    }
  }

  // ------------------------------------------------------------ case, search

  /** `str.lower()` on ASCII letters; every other character is kept. */
  function Lower(s: string): (r: string)
    ensures |r| == |s|
    ensures forall k :: 0 <= k < |s| ==> r[k] == LowerChar(s[k])
  {
    if |s| == 0 then [] else [LowerChar(s[0])] + Lower(s[1..])
  }

  function LowerChar(c: char): char {
    if 'A' <= c <= 'Z' then (c as int + 32) as char else c
  }

  /** `needle` occurs in `hay` starting at position `i`. */
  predicate OccursAt(hay: string, needle: string, i: int) {
    0 <= i && i + |needle| <= |hay| && hay[i..i + |needle|] == needle
  }

  /** Python's `needle in hay`. */
  function Contains(hay: string, needle: string): (b: bool)
    ensures b <==> exists i :: OccursAt(hay, needle, i)
  {
    if needle <= hay then
      assert OccursAt(hay, needle, 0);
      true
    else if |hay| == 0 then
      assert forall i :: !OccursAt(hay, needle, i);
      false
    else
      assert forall i :: OccursAt(hay[1..], needle, i) ==> OccursAt(hay, needle, i + 1) by {
        forall i | OccursAt(hay[1..], needle, i) ensures OccursAt(hay, needle, i + 1) {
          OccursShift(hay, needle, i);
        }
      }
      assert !OccursAt(hay, needle, 0);
      assert forall i :: OccursAt(hay, needle, i) ==> OccursAt(hay[1..], needle, i - 1) by {
        forall i | OccursAt(hay, needle, i) ensures OccursAt(hay[1..], needle, i - 1) {
          OccursShift(hay, needle, i - 1);
        }
      }
      Contains(hay[1..], needle)
  }

  /** An occurrence in the tail is an occurrence one position later in the whole. */
  lemma OccursShift(hay: string, needle: string, i: int)
    requires |hay| > 0 && 0 <= i
    ensures OccursAt(hay[1..], needle, i) <==> OccursAt(hay, needle, i + 1)
  {
    if i + |needle| <= |hay| - 1 {
      assert hay[1..][i..i + |needle|] == hay[i + 1..i + 1 + |needle|];
    }
  }

  /** SQL `ILIKE '%needle%'` without wildcard characters in `needle`. */
  predicate ContainsIgnoreCase(hay: string, needle: string) {
    Contains(Lower(hay), Lower(needle))
  }
}
