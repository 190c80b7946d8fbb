/**
  The handful of ECMAScript string primitives the paste transform relies on:
  `indexOf`, `slice`, `substring`, `replace` with a string pattern, and `trim`.
  A string is a sequence of `char`, each element standing for one UTF-16
  code unit, so lengths and indices are code-unit counts as in JavaScript.
 */
module JsString {

  /** `search` occurs in `text` starting at position `j`. */
  predicate OccursAt(text: string, search: string, j: int) {
    0 <= j && j + |search| <= |text| && text[j..j + |search|] == search
  }

  /** `search` occurs somewhere in `text`. */
  ghost predicate Occurs(text: string, search: string) {
    exists j :: OccursAt(text, search, j)
  }

  /** Searches for `search` at positions `k`, `k+1`, ... of `text`. */
  function IndexOfFrom(text: string, search: string, k: nat): (r: int)
    requires k <= |text|
    ensures r == -1 || (k <= r && OccursAt(text, search, r))
    ensures r == -1 ==> forall j :: k <= j ==> !OccursAt(text, search, j)
    ensures r != -1 ==> forall j :: k <= j < r ==> !OccursAt(text, search, j)
    decreases |text| - k
  {
    if k + |search| > |text| then -1
    else if text[k..k + |search|] == search then k
    else IndexOfFrom(text, search, k + 1)
  }

  /**
    `String.prototype.indexOf(search)`: the position of the first occurrence
    of `search` in `text`, or -1 when there is none. The empty string occurs
    at position 0 of every string.
   */
  function IndexOf(text: string, search: string): (r: int)
    ensures r == -1 || 0 <= r <= |text| - |search|
    ensures r == -1 <==> !Occurs(text, search)
    ensures r != -1 ==> OccursAt(text, search, r)
    ensures r != -1 ==> forall j :: 0 <= j < r ==> !OccursAt(text, search, j)
  {
    IndexOfFrom(text, search, 0)
  }

  /** The first occurrence stays the first occurrence when text is appended. */
  lemma {:induction false} IndexOfExtend(text: string, search: string, more: string)
    requires IndexOf(text, search) != -1
    ensures IndexOf(text + more, search) == IndexOf(text, search)
  {
    var i := IndexOf(text, search);
    assert (text + more)[i..i + |search|] == text[i..i + |search|];
    assert OccursAt(text + more, search, i);
    forall j | 0 <= j < i
      ensures !OccursAt(text + more, search, j)
    {
      assert !OccursAt(text, search, j);
      assert (text + more)[j..j + |search|] == text[j..j + |search|];
    }
  }

  /** The empty string is found at the very start. */
  lemma IndexOfEmpty(text: string)
    ensures IndexOf(text, "") == 0
  {
    assert OccursAt(text, "", 0);
  }

  /** Cutting text after its first occurrence keeps that occurrence first. */
  lemma {:induction false} IndexOfTruncate(text: string, search: string, m: nat)
    requires IndexOf(text, search) != -1
    requires IndexOf(text, search) + |search| <= m <= |text|
    ensures IndexOf(text[..m], search) == IndexOf(text, search)
  {
    var i := IndexOf(text, search);
    var part := text[..m];
    assert part[i..i + |search|] == text[i..i + |search|];
    assert OccursAt(part, search, i);
    forall j | 0 <= j < i
      ensures !OccursAt(part, search, j)
    {
      assert !OccursAt(text, search, j);
      assert part[j..j + |search|] == text[j..j + |search|];
    }
  }

  /**
    `String.prototype.slice(start)`: a negative `start` counts from the end
    and is clamped to 0; a `start` past the end gives the empty string.
   */
  function Slice(s: string, start: int): (r: string)
    ensures start >= 0 ==> r == s[if start <= |s| then start else |s|..]
    ensures -|s| <= start < 0 ==> r == s[|s| + start..]
    ensures start < -|s| ==> r == s
  {
    var from := if start < 0 then (if |s| + start < 0 then 0 else |s| + start)
                else if start > |s| then |s| else start;
    s[from..]
  }

  /** `String.prototype.substring(start, end)` on integer arguments. */
  function Substring(s: string, start: int, end: int): (r: string)
    ensures 0 <= start <= end <= |s| ==> r == s[start..end]
    ensures 0 <= end <= start <= |s| ==> r == s[end..start]
    ensures |r| <= |s|
  {
    var a := if start < 0 then 0 else if start > |s| then |s| else start;
    var b := if end < 0 then 0 else if end > |s| then |s| else end;
    if a <= b then s[a..b] else s[b..a]
  }

  /**
    The replacement text of `replace` with a string pattern (the
    GetSubstitution step of ECMAScript, with no capture groups): `$$` stands
    for `$`, `$&` for the matched text, `` $` `` for the text before the match
    and `$'` for the text after it; every other `$` is kept literally.
   */
  function Expand(template: string, before: string, matched: string, after: string): string
    decreases |template|
  {
    if |template| == 0 then ""
    else if template[0] == '$' && |template| >= 2 && template[1] in "$&`'" then
      var unit := if template[1] == '$' then "$"
                  else if template[1] == '&' then matched
                  else if template[1] == '`' then before
                  else after;
      unit + Expand(template[2..], before, matched, after)
    else [template[0]] + Expand(template[1..], before, matched, after)
  }

  /** A replacement text without `$` is inserted verbatim. */
  lemma {:induction false} ExpandWithoutDollar(template: string, before: string, matched: string, after: string)
    requires '$' !in template
    ensures Expand(template, before, matched, after) == template
    decreases |template|
  {
    if |template| > 0 {
      assert '$' !in template[1..];
      ExpandWithoutDollar(template[1..], before, matched, after);
      assert [template[0]] + template[1..] == template;
    }
  }

  /**
    `String.prototype.replace(pattern, replacement)` with a string pattern:
    only the first occurrence of `pattern` is replaced, and the string is
    returned unchanged when there is none.
   */
  function ReplaceFirst(s: string, pattern: string, replacement: string): string {
    var i := IndexOf(s, pattern);
    if i == -1 then s
    else
      var tail := s[i + |pattern|..];
      s[..i] + Expand(replacement, s[..i], pattern, tail) + tail
  }

  /** Replacing an occurrence that ends the string leaves nothing after the replacement. */
  lemma ReplaceFirstAtEnd(s: string, pattern: string, replacement: string, i: int)
    requires 0 <= i && i + |pattern| == |s| && IndexOf(s, pattern) == i
    ensures ReplaceFirst(s, pattern, replacement) == s[..i] + Expand(replacement, s[..i], pattern, "")
  {
    assert s[i + |pattern|..] == "";
    var e := Expand(replacement, s[..i], pattern, "");
    assert s[..i] + e + "" == s[..i] + e;
  }

  /*
    Plain facts about slicing and concatenation. Each is its own lemma so
    that the proofs which use them stay small for the solver.
   */

  /** Taking a prefix of a prefix. */
  lemma TakeTake(s: string, i: nat, m: nat)
    requires i <= m <= |s|
    ensures s[..m][..i] == s[..i]
  {
  }

  /** Taking nothing gives the empty string; dropping nothing gives the string. */
  lemma TakeDropNothing(s: string)
    ensures s[..0] == "" && s[0..] == s
  {
  }

  /** Concatenation regroups. */
  lemma AppendAssoc(a: string, b: string, c: string)
    ensures (a + b) + c == a + (b + c)
  {
  }

  /** The outer parts of a three-part concatenation, recovered by slicing. */
  lemma ConcatParts(p: string, n: string, m: string)
    ensures (p + n + m)[..|p|] == p && (p + n + m)[|p| + |n|..] == m
  {
  }

  /**
    The characters `String.prototype.trim` removes: ECMAScript WhiteSpace
    (tab, vertical tab, form feed, space, no-break space, byte order mark and
    the Unicode space separators) and LineTerminator (LF, CR, U+2028, U+2029).
   */
  predicate IsWhitespace(c: char) {
    || c == '\t' || c == '\U{000B}' || c == '\U{000C}' || c == ' '
    || c == '\U{00A0}' || c == '\U{FEFF}' || c == '\U{1680}'
    || ('\U{2000}' <= c <= '\U{200A}')
    || c == '\U{202F}' || c == '\U{205F}' || c == '\U{3000}'
    || c == '\n' || c == '\r' || c == '\U{2028}' || c == '\U{2029}'
  }

  /** Every character of `s` is whitespace (true of the empty string). */
  predicate AllWhitespace(s: string) {
    forall i :: 0 <= i < |s| ==> IsWhitespace(s[i])
  }

  /** The number of leading whitespace characters of `s`. */
  function LeadingSpace(s: string): (n: nat)
    ensures n <= |s|
    ensures AllWhitespace(s[..n])
    ensures n < |s| ==> !IsWhitespace(s[n])
  {
    if |s| == 0 || !IsWhitespace(s[0]) then 0
    else
      var m := LeadingSpace(s[1..]);
      assert s[1..][..m] == s[1..m + 1];
      1 + m
  }

  /** The number of trailing whitespace characters of `s`. */
  function TrailingSpace(s: string): (n: nat)
    ensures n <= |s|
    ensures AllWhitespace(s[|s| - n..])
    ensures n < |s| ==> !IsWhitespace(s[|s| - n - 1])
  {
    if |s| == 0 || !IsWhitespace(s[|s| - 1]) then 0
    else
      var m := TrailingSpace(s[..|s| - 1]);
      assert s[..|s| - 1][|s| - 1 - m..] == s[|s| - 1 - m..|s| - 1];
      1 + m
  }

  /**
    `String.prototype.trim`: `s` without its leading and trailing whitespace.
    The result is the part of `s` between two all-whitespace runs, and it
    neither starts nor ends with whitespace; it is empty exactly when `s` is
    all whitespace.
   */
  function Trim(s: string): (r: string)
    ensures exists lo :: 0 <= lo <= |s| - |r| && s[lo..lo + |r|] == r
                      && AllWhitespace(s[..lo]) && AllWhitespace(s[lo + |r|..])
    ensures r != "" ==> !IsWhitespace(r[0]) && !IsWhitespace(r[|r| - 1])
    ensures r == "" <==> AllWhitespace(s)
  {
    var lo := LeadingSpace(s);
    var rest := s[lo..];
    var hi := |rest| - TrailingSpace(rest);
    var r := rest[..hi];
    assert s[lo..lo + |r|] == r;
    assert s[lo + |r|..] == rest[hi..];
    WhitespaceAround(s, lo, lo + |r|);
    r
  }

  /** A string is all whitespace when it is whitespace before `lo`, after `hi` and in between. */
  lemma WhitespaceAround(s: string, lo: nat, hi: nat)
    requires lo <= hi <= |s|
    requires AllWhitespace(s[..lo]) && AllWhitespace(s[hi..])
    ensures AllWhitespace(s) <==> AllWhitespace(s[lo..hi])
  {
    if AllWhitespace(s[lo..hi]) {
      forall k | 0 <= k < |s|
        ensures IsWhitespace(s[k])
      {
        if k < lo {
          assert s[..lo][k] == s[k];
        } else if k < hi {
          assert s[lo..hi][k - lo] == s[k];
        } else {
          assert s[hi..][k - hi] == s[k];
        }
      }
    }
  }

  /** A string that neither starts nor ends with whitespace is its own trim. */
  lemma TrimUntouched(s: string)
    requires s != "" && !IsWhitespace(s[0]) && !IsWhitespace(s[|s| - 1])
    ensures Trim(s) == s
  {
    assert LeadingSpace(s) == 0;
    assert s[0..] == s;
    assert TrailingSpace(s) == 0;
  }

  /** Trimming twice is the same as trimming once. */
  lemma TrimIdempotent(s: string)
    ensures Trim(Trim(s)) == Trim(s)
  {
    var t := Trim(s);
    if t != "" {
      assert LeadingSpace(t) == 0;
      assert TrailingSpace(t) == 0;
      assert t[0..][..|t|] == t;
    }
  }
}
