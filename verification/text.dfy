/** The few Python string operations the extractor uses: `str.strip`,
    `str.rstrip`, `str.lower` (as far as matching section labels needs it)
    and `str.join`, with `str.split` as the inverse of joining. */
module Text {

  /** The characters for which Python's `str.isspace` holds. */
  const Whitespace: set<char> := {
    '\t', '\n', '\U{B}', '\U{C}', '\r', '\U{1C}', '\U{1D}', '\U{1E}', '\U{1F}', ' ',
    '\U{85}', '\U{A0}', '\U{1680}',
    '\U{2000}', '\U{2001}', '\U{2002}', '\U{2003}', '\U{2004}', '\U{2005}',
    '\U{2006}', '\U{2007}', '\U{2008}', '\U{2009}', '\U{200A}',
    '\U{2028}', '\U{2029}', '\U{202F}', '\U{205F}', '\U{3000}'
  }

  /** Python's `str.isspace` for one character. */
  predicate IsSpace(c: char)
  {
    c in Whitespace
  }

  /** `s.rstrip()`. */
  function RStrip(s: string): string
  {
    if s != [] && IsSpace(s[|s| - 1]) then RStrip(s[..|s| - 1]) else s
  }

  /** `s.rstrip()` is the longest prefix of `s` that does not end in whitespace:
      it is a prefix, only whitespace was removed, and what is left does not end
      in whitespace. */
  lemma {:induction false} RStripSpec(s: string)
    ensures RStrip(s) <= s
    ensures forall i :: |RStrip(s)| <= i < |s| ==> IsSpace(s[i])
    ensures RStrip(s) == [] || !IsSpace(RStrip(s)[|RStrip(s)| - 1])
  {
    if s != [] && IsSpace(s[|s| - 1]) {
      RStripSpec(s[..|s| - 1]);
    }
  }

  /** `s.lstrip()`. */
  function LStrip(s: string): string
  {
    if s != [] && IsSpace(s[0]) then LStrip(s[1..]) else s
  }

  /** `s.lstrip()` is the longest suffix of `s` that does not start with whitespace. */
  lemma {:induction false} LStripSpec(s: string)
    ensures |LStrip(s)| <= |s| && LStrip(s) == s[|s| - |LStrip(s)|..]
    ensures forall i :: 0 <= i < |s| - |LStrip(s)| ==> IsSpace(s[i])
    ensures LStrip(s) == [] || !IsSpace(LStrip(s)[0])
  {
    if s != [] && IsSpace(s[0]) {
      LStripSpec(s[1..]);
    }
  }

  /** `s.strip()`. */
  function Strip(s: string): string
  {
    RStrip(LStrip(s))
  }

  /** Every character of `s` is whitespace. */
  predicate AllSpace(s: string)
  {
    forall i :: 0 <= i < |s| ==> IsSpace(s[i])
  }

  /** A string strips to nothing exactly when every character is whitespace. */
  lemma StripEmptyIff(s: string)
    ensures Strip(s) == [] <==> AllSpace(s)
  {
    var l := LStrip(s);
    LStripSpec(s);
    RStripSpec(l);
    if Strip(s) != [] {
      var r := Strip(s);
      assert r[0] == l[0] && !IsSpace(s[|s| - |l|]);
    }
  }

  /** One character of `str.lower`, as far as label matching needs it: `A`..`Z`,
      and KELVIN SIGN, the only other character whose lower-case form is a
      single ASCII letter (`k`); every other character is left unchanged. */
  function LowerChar(c: char): char
  {
    if 'A' <= c <= 'Z' then (c as int + 32) as char
    else if c == '\U{212A}' then 'k'
    else c
  }

  function Lower(s: string): string
  {
    if s == [] then [] else [LowerChar(s[0])] + Lower(s[1..])
  }

  /** Lowering leaves text without upper-case letters unchanged. */
  lemma {:induction false} LowerOfLowerCase(s: string)
    requires forall i :: 0 <= i < |s| ==> !('A' <= s[i] <= 'Z') && s[i] != '\U{212A}'
    ensures Lower(s) == s
  {
    if s != [] {
      LowerOfLowerCase(s[1..]);
      assert [s[0]] + s[1..] == s;
    }
  }

  /** The target alphabet of the section labels: lower-case ASCII letters and `_`. */
  predicate LabelChar(c: char)
  {
    ('a' <= c <= 'z') || c == '_'
  }

  /** `c` is one of the characters `str.lower` turns into the label character `t`. */
  predicate LowersTo(c: char, t: char)
  {
    c == t || ('a' <= t <= 'z' && c == (t as int - 32) as char) || (t == 'k' && c == '\U{212A}')
  }

  /** Case-insensitive match against a lower-case label, stated character by
      character without reference to `Lower`. */
  lemma {:induction false} LowerEqualsIff(s: string, t: string)
    requires forall i :: 0 <= i < |t| ==> LabelChar(t[i])
    ensures Lower(s) == t <==> |s| == |t| && forall i :: 0 <= i < |s| ==> LowersTo(s[i], t[i])
  {
    if s != [] && t != [] {
      LowerEqualsIff(s[1..], t[1..]);
      assert Lower(s) == [LowerChar(s[0])] + Lower(s[1..]);
      assert LowerChar(s[0]) == t[0] <==> LowersTo(s[0], t[0]);
      if Lower(s) == t {
        assert Lower(s[1..]) == t[1..];
        assert forall i :: 1 <= i < |s| ==> s[i] == s[1..][i - 1] && t[i] == t[1..][i - 1];
      }
      if |s| == |t| && forall i :: 0 <= i < |s| ==> LowersTo(s[i], t[i]) {
        assert forall i :: 0 <= i < |s| - 1 ==> s[1..][i] == s[i + 1] && t[1..][i] == t[i + 1];
        assert [t[0]] + t[1..] == t;
      }
    } else if s != [] {
      assert |Lower(s)| > 0;
    }
  }

  /** `sep.join(lines)`. */
  function Join(lines: seq<string>, sep: string): string
  {
    if |lines| == 0 then ""
    else if |lines| == 1 then lines[0]
    else lines[0] + sep + Join(lines[1..], sep)
  }

  /** A joined text begins with its first line. */
  lemma {:induction false} JoinStartsWithFirst(lines: seq<string>, sep: string)
    requires |lines| > 0
    ensures lines[0] <= Join(lines, sep)
  {
    if |lines| > 1 {
      assert Join(lines, sep) == lines[0] + (sep + Join(lines[1..], sep));
    }
  }

  /** `s.split(c)` for a one-character separator: always at least one piece. */
  function Split(s: string, c: char): (r: seq<string>)
    ensures |r| >= 1
  {
    if s == [] then [""]
    else
      var rest := Split(s[1..], c);
      if s[0] == c then [""] + rest else [[s[0]] + rest[0]] + rest[1..]
  }

  lemma {:induction false} SplitNoSeparator(a: string, c: char, t: string)
    requires c !in a
    ensures Split(a + [c] + t, c) == [a] + Split(t, c)
    ensures Split(a, c) == [a]
  {
    if a == [] {
      assert a + [c] + t == [c] + t;
      assert ([c] + t)[1..] == t;
    } else {
      SplitNoSeparator(a[1..], c, t);
      assert (a + [c] + t)[1..] == a[1..] + [c] + t;
      assert [a[0]] + a[1..] == a;
    }
  }

  /** Splitting a joined text on the separator gives back the lines, provided
      no line contains the separator. */
  lemma {:induction false} SplitJoin(lines: seq<string>, c: char)
    requires |lines| >= 1
    requires forall i :: 0 <= i < |lines| ==> c !in lines[i]
    ensures Split(Join(lines, [c]), c) == lines
  {
    if |lines| == 1 {
      SplitNoSeparator(lines[0], c, "");
    } else {
      SplitJoin(lines[1..], c);
      SplitNoSeparator(lines[0], c, Join(lines[1..], [c]));
      assert [lines[0]] + lines[1..] == lines;
    }
  }
}
