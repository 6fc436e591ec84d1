/** The string operations of JavaScript that the PDF handler relies on,
    `Array.prototype.join` and `String.prototype.trim`, and `SplitOn`, a
    one-character `String.prototype.split` that the handler does not use: it
    states that `Join` can be undone. */
module Text {

  /** `parts.join(sep)`: the parts in order with `sep` between neighbours. */
  function Join(parts: seq<string>, sep: string): string
  {
    if |parts| == 0 then ""
    else if |parts| == 1 then parts[0]
    else Join(parts[..|parts| - 1], sep) + sep + parts[|parts| - 1]
  }

  lemma JoinAppend(parts: seq<string>, p: string, sep: string)
    requires |parts| > 0
    ensures Join(parts + [p], sep) == Join(parts, sep) + sep + p
  {
    assert (parts + [p])[..|parts|] == parts;
  }

  /** `s.split(sep)` for a one-character separator: the maximal pieces of `s`
      between occurrences of `sep`; the empty string gives `[""]`. */
  function SplitOn(s: string, sep: char): (parts: seq<string>)
    ensures |parts| > 0
  {
    if |s| == 0 then [""]
    else
      var p := SplitOn(s[..|s| - 1], sep);
      if s[|s| - 1] == sep then p + [""]
      else p[..|p| - 1] + [p[|p| - 1] + [s[|s| - 1]]]
  }

  /** One character other than the separator lengthens the last piece. */
  lemma SplitOnSnocPlain(s: string, c: char, sep: char)
    requires c != sep
    ensures var p := SplitOn(s, sep);
      SplitOn(s + [c], sep) == p[..|p| - 1] + [p[|p| - 1] + [c]]
  {
    assert (s + [c])[..|s|] == s;
  }

  /** A separator at the end adds an empty piece. */
  lemma SplitOnSnocSep(s: string, sep: char)
    ensures SplitOn(s + [sep], sep) == SplitOn(s, sep) + [""]
  {
    assert (s + [sep])[..|s|] == s;
  }

  /** Appending text without a separator only lengthens the last piece. */
  lemma {:induction false} SplitOnAppendPlain(a: string, b: string, sep: char)
    requires sep !in b
    ensures var p := SplitOn(a, sep);
      SplitOn(a + b, sep) == p[..|p| - 1] + [p[|p| - 1] + b]
    decreases |b|
  {
    var p := SplitOn(a, sep);
    if |b| == 0 {
      assert a + b == a;
      assert p[|p| - 1] + b == p[|p| - 1];
      assert p == p[..|p| - 1] + [p[|p| - 1]];
    } else {
      var b', c := b[..|b| - 1], b[|b| - 1];
      assert sep !in b' && c != sep by {
        assert b == b' + [c];
      }
      SplitOnAppendPlain(a, b', sep);
      var q := SplitOn(a + b', sep);
      assert a + b == (a + b') + [c] by {
        assert b == b' + [c];
      }
      SplitOnSnocPlain(a + b', c, sep);
      assert q[..|q| - 1] == p[..|p| - 1];
      assert q[|q| - 1] + [c] == p[|p| - 1] + b by {
        assert b == b' + [c];
      }
    }
  }

  /** Splitting undoes joining, as long as no part contains the separator. */
  lemma {:induction false} SplitJoin(parts: seq<string>, sep: char)
    requires |parts| > 0
    requires forall i :: 0 <= i < |parts| ==> sep !in parts[i]
    ensures SplitOn(Join(parts, [sep]), sep) == parts
    decreases |parts|
  {
    var last := parts[|parts| - 1];
    if |parts| == 1 {
      SplitOnAppendPlain("", last, sep);
      assert "" + last == last;
    } else {
      var init := parts[..|parts| - 1];
      assert parts == init + [last];
      SplitJoin(init, sep);
      SplitOnSnocSep(Join(init, [sep]), sep);
      SplitOnAppendPlain(Join(init, [sep]) + [sep], last, sep);
      JoinAppend(init, last, [sep]);
      FillLastPiece(init, last);
    }
  }

  lemma FillLastPiece(init: seq<string>, last: string)
    ensures (init + [""])[..|init|] + [(init + [""])[|init|] + last] == init + [last]
  {
    assert (init + [""])[..|init|] == init;
    assert "" + last == last;
  }

  /** The characters `String.prototype.trim` removes: ECMAScript WhiteSpace
      and LineTerminator code points. */
  predicate IsWhitespace(c: char)
  {
    || c == ' ' || c == '\t' || c == '\n' || c == '\r'
    || c == '\U{000B}' || c == '\U{000C}' || c == '\U{00A0}' || c == '\U{1680}'
    || ('\U{2000}' <= c <= '\U{200A}')
    || c == '\U{2028}' || c == '\U{2029}' || c == '\U{202F}' || c == '\U{205F}'
    || c == '\U{3000}' || c == '\U{FEFF}'
  }

  /** The index of the first non-whitespace character at or after `i`, or
      `|s|` when there is none. */
  function ContentStart(s: string, i: nat): (k: nat)
    requires i <= |s|
    ensures i <= k <= |s|
    ensures forall j :: i <= j < k ==> IsWhitespace(s[j])
    ensures k < |s| ==> !IsWhitespace(s[k])
    decreases |s| - i
  {
    if i < |s| && IsWhitespace(s[i]) then ContentStart(s, i + 1) else i
  }

  /** The index just past the last non-whitespace character before `j` and
      not before `lead`, or `lead` when there is none. */
  function ContentEnd(s: string, lead: nat, j: nat): (k: nat)
    requires lead <= j <= |s|
    ensures lead <= k <= j
    ensures forall i :: k <= i < j ==> IsWhitespace(s[i])
    ensures k > lead ==> !IsWhitespace(s[k - 1])
    decreases j
  {
    if j > lead && IsWhitespace(s[j - 1]) then ContentEnd(s, lead, j - 1) else j
  }

  /** `s.trim()`: the slice of `s` left after removing whitespace from both
      ends (`ContentStart(s, 0)` characters in front). Neither end of the
      result is whitespace, and the result is empty exactly when `s` is all
      whitespace. */
  function Trim(s: string): (r: string)
    ensures var lead := ContentStart(s, 0);
      && lead + |r| <= |s| && r == s[lead..lead + |r|]
      && (forall i :: 0 <= i < lead ==> IsWhitespace(s[i]))
      && (forall i :: lead + |r| <= i < |s| ==> IsWhitespace(s[i]))
    ensures |r| == 0 || (!IsWhitespace(r[0]) && !IsWhitespace(r[|r| - 1]))
    ensures |r| == 0 <==> forall i :: 0 <= i < |s| ==> IsWhitespace(s[i])
  {
    var lead := ContentStart(s, 0);
    var end := ContentEnd(s, lead, |s|);
    assert end > lead ==> s[lead..end][0] == s[lead] && s[lead..end][end - lead - 1] == s[end - 1];
    s[lead..end]
  }

  /** A character in neither the parts nor the separator is not in the
      joined string. */
  lemma {:induction false} JoinExcludes(parts: seq<string>, sep: string, c: char)
    requires c !in sep
    requires forall i :: 0 <= i < |parts| ==> c !in parts[i]
    ensures c !in Join(parts, sep)
    decreases |parts|
  {
    if |parts| > 1 {
      JoinExcludes(parts[..|parts| - 1], sep, c);
    }
  }

  /** A join whose first part is non-empty is at least that long. */
  lemma {:induction false} JoinNonEmpty(parts: seq<string>, sep: string)
    requires |parts| > 0 && |parts[0]| > 0
    ensures |Join(parts, sep)| >= |parts[0]|
    decreases |parts|
  {
    if |parts| > 1 {
      JoinNonEmpty(parts[..|parts| - 1], sep);
    }
  }

  lemma ConcatAssoc(a: string, b: string, c: string)
    ensures (a + b) + c == a + (b + c)
  {
  }

  /** Two empty parts at the end of a join add two separators. */
  lemma JoinTwoEmpty(parts: seq<string>, sep: string)
    requires |parts| > 0
    ensures Join(parts + ["", ""], sep) == Join(parts, sep) + sep + sep
  {
    JoinAppend(parts, "", sep);
    JoinAppend(parts + [""], "", sep);
    assert parts + [""] + [""] == parts + ["", ""];
  }

  lemma AppendBlankLine(a: string, p: string)
    ensures a + (p + "\n\n") == ((a + p) + "\n") + "\n"
  {
    assert "\n\n" == "\n" + "\n";
  }
}
