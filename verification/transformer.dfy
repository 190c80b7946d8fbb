/**
  The transformer (`transform` in src/paste-markdown-html.ts): it walks the
  anchors of the pasted HTML in document order and, for each, finds the
  anchor's text in what is left of the plaintext, replaces it there with the
  formatter's output and moves on past it.
 */
module Transformer {
  import opened JsString
  import opened Aligner
  import opened LinkFormat

  /**
    One turn of the loop over anchors: the piece appended to the output
    and the plaintext that remains, computed as the source does with
    `trimAfter`, `replace` and `slice`. What it amounts to is stated by
    `StepWhenFound` and `StepWhenNotFound`.
   */
  function Step(text: string, a: Anchor, format: Anchor -> string): (string, string) {
    var needle := a.textContent;
    var al := TrimAfter(text, needle);
    (ReplaceFirst(al.part, needle, format(a)), Slice(text, al.index))
  }

  /**
    When the anchor's text is found at `i`, the piece is everything before
    it followed by the formatter's output (with its `$` patterns expanded
    against the match), and the buffer left is what follows the match.
   */
  lemma StepWhenFound(text: string, a: Anchor, format: Anchor -> string, i: int)
    requires i == IndexOf(text, a.textContent) && i != -1
    ensures Step(text, a, format)
         == (text[..i] + Expand(format(a), text[..i], a.textContent, ""), text[i + |a.textContent|..])
  {
    var needle := a.textContent;
    var al := TrimAfter(text, needle);
    assert al.part == text[..i + |needle|];
    ReplaceInMatchedPart(text, needle, format(a), i);
  }

  /**
    When the anchor's text is not found, the piece is empty and, because
    the not-found index -1 is passed to `slice`, only the last character of
    the buffer remains.
   */
  lemma StepWhenNotFound(text: string, a: Anchor, format: Anchor -> string)
    requires IndexOf(text, a.textContent) == -1
    ensures Step(text, a, format) == ("", if text == "" then "" else [text[|text| - 1]])
  {
    var needle := a.textContent;
    var al := TrimAfter(text, needle);
    assert al.part == "";
    assert IndexOf("", needle) == -1 by {
      assert !OccursAt("", needle, 0);
    }
    if text != "" {
      assert text[|text| - 1..] == [text[|text| - 1]];
    }
  }

  /** One turn of the loop never lengthens the buffer. */
  lemma StepShrinks(text: string, a: Anchor, format: Anchor -> string)
    ensures |Step(text, a, format).1| <= |text|
  {
    var i := IndexOf(text, a.textContent);
    if i == -1 {
      StepWhenNotFound(text, a, format);
    } else {
      StepWhenFound(text, a, format, i);
    }
  }

  /**
    An anchor with empty text matches at the front of the buffer: the
    expanded formatter output is emitted there and nothing is consumed.
   */
  lemma StepEmptyAnchor(text: string, a: Anchor, format: Anchor -> string)
    requires a.textContent == ""
    ensures Step(text, a, format) == (Expand(format(a), "", "", ""), text)
  {
    IndexOfEmpty(text);
    StepWhenFound(text, a, format, 0);
    TakeDropNothing(text);
    var e := Expand(format(a), "", "", "");
    assert "" + e == e;
  }

  /**
    Replacing in the prefix that ends with the first occurrence `i` of
    `needle` touches that occurrence and nothing after it.
   */
  lemma ReplaceInMatchedPart(text: string, needle: string, replacement: string, i: int)
    requires i == IndexOf(text, needle) && i != -1
    ensures ReplaceFirst(text[..i + |needle|], needle, replacement)
        == text[..i] + Expand(replacement, text[..i], needle, "")
  {
    IndexOfTruncate(text, needle, i + |needle|);
    ReplaceInPrefix(text, needle, replacement, i, i + |needle|);
  }

  /** Replacing in `text[..m]` whose first occurrence of `needle` ends it. */
  lemma ReplaceInPrefix(text: string, needle: string, replacement: string, i: int, m: int)
    requires 0 <= i && m == i + |needle| <= |text| && IndexOf(text[..m], needle) == i
    ensures ReplaceFirst(text[..m], needle, replacement) == text[..i] + Expand(replacement, text[..i], needle, "")
  {
    ReplaceFirstAtEnd(text[..m], needle, replacement, i);
    TakeTake(text, i, m);
  }

  /** The transform as written: every anchor is handled by `Step`. */
  function Transform(anchors: seq<Anchor>, text: string, format: Anchor -> string): string
    decreases |anchors|
  {
    if |anchors| == 0 then text
    else
      var s := Step(text, anchors[0], format);
      s.0 + Transform(anchors[1..], s.1, format)
  }

  /** The concatenation of the collected pieces (`markdownParts.join('')`). */
  function Join(parts: seq<string>): string
    decreases |parts|
  {
    if |parts| == 0 then "" else Join(parts[..|parts| - 1]) + parts[|parts| - 1]
  }

  /** The loop of `transform`, collecting pieces and shrinking the buffer. */
  method TransformLoop(anchors: seq<Anchor>, text: string, format: Anchor -> string) returns (r: string)
    ensures r == Transform(anchors, text, format)
  {
    var parts: seq<string> := [];
    var buffer := text;
    for k := 0 to |anchors|
      invariant Join(parts) + Transform(anchors[k..], buffer, format) == Transform(anchors, text, format)
    {
      var s := Step(buffer, anchors[k], format);
      LoopStep(parts, anchors, k, buffer, format);
      parts := parts + [s.0];
      buffer := s.1;
    }
    JoinAppend(parts, buffer);
    parts := parts + [buffer];
    r := Join(parts);
  }

  /** Appending one piece appends it to the join. */
  lemma JoinAppend(parts: seq<string>, piece: string)
    ensures Join(parts + [piece]) == Join(parts) + piece
  {
    assert (parts + [piece])[..|parts|] == parts;
  }

  /** One turn of the loop moves one piece from the pending transform to the collected parts. */
  lemma LoopStep(parts: seq<string>, anchors: seq<Anchor>, k: nat, buffer: string, format: Anchor -> string)
    requires k < |anchors|
    ensures var s := Step(buffer, anchors[k], format);
      Join(parts + [s.0]) + Transform(anchors[k + 1..], s.1, format)
        == Join(parts) + Transform(anchors[k..], buffer, format)
  {
    var s := Step(buffer, anchors[k], format);
    var tail := anchors[k..];
    assert tail[0] == anchors[k] && tail[1..] == anchors[k + 1..];
    var rest := Transform(anchors[k + 1..], s.1, format);
    assert Transform(tail, buffer, format) == s.0 + rest;
    JoinAppend(parts, s.0);
    AppendAssoc(Join(parts), s.0, rest);
  }

  /** The plaintext a run of found anchors consumes: each prefix, then its anchor's text. */
  function Consumed(anchors: seq<Anchor>, prefixes: seq<string>): string
    requires |prefixes| == |anchors|
    decreases |anchors|
  {
    if |anchors| == 0 then ""
    else prefixes[0] + anchors[0].textContent + Consumed(anchors[1..], prefixes[1..])
  }

  /** What that run becomes: each prefix, then the expanded formatter output. */
  function Rendered(anchors: seq<Anchor>, prefixes: seq<string>, format: Anchor -> string): string
    requires |prefixes| == |anchors|
    decreases |anchors|
  {
    if |anchors| == 0 then ""
    else
      prefixes[0] + Expand(format(anchors[0]), prefixes[0], anchors[0].textContent, "")
      + Rendered(anchors[1..], prefixes[1..], format)
  }

  /** Each prefix holds no earlier occurrence of the anchor text that follows it. */
  predicate FirstOccurrences(anchors: seq<Anchor>, prefixes: seq<string>)
    requires |prefixes| == |anchors|
  {
    forall i :: 0 <= i < |anchors| ==>
      IndexOf(prefixes[i] + anchors[i].textContent, anchors[i].textContent) == |prefixes[i]|
  }

  /** The found case of `Step`, for a buffer that is a prefix, a needle and more. */
  lemma StepFound(prefix: string, a: Anchor, more: string, format: Anchor -> string)
    requires IndexOf(prefix + a.textContent, a.textContent) == |prefix|
    ensures Step(prefix + a.textContent + more, a, format)
         == (prefix + Expand(format(a), prefix, a.textContent, ""), more)
  {
    var text := prefix + a.textContent + more;
    IndexOfExtend(prefix + a.textContent, a.textContent, more);
    StepWhenFound(text, a, format, |prefix|);
    ConcatParts(prefix, a.textContent, more);
  }

  /**
    When every anchor's text is found, left to right, the transform writes
    each consumed prefix followed by the formatter's output in place of the
    anchor's text, then the untouched rest of the plaintext.
   */
  lemma {:induction false} TransformAllFound(anchors: seq<Anchor>, prefixes: seq<string>, tail: string, format: Anchor -> string)
    requires |prefixes| == |anchors|
    requires FirstOccurrences(anchors, prefixes)
    ensures Transform(anchors, Consumed(anchors, prefixes) + tail, format)
         == Rendered(anchors, prefixes, format) + tail
    decreases |anchors|
  {
    if |anchors| > 0 {
      var a, p := anchors[0], prefixes[0];
      var text, rest := FoundLayout(anchors, prefixes, tail);
      StepFound(p, a, rest, format);
      FirstOccurrencesTail(anchors, prefixes);
      TransformAllFound(anchors[1..], prefixes[1..], tail, format);
      var head := p + Expand(format(a), p, a.textContent, "");
      assert Transform(anchors, text, format) == head + Transform(anchors[1..], rest, format);
      AppendAssoc(head, Rendered(anchors[1..], prefixes[1..], format), tail);
    }
  }

  /** A consumed run followed by `tail` is the first prefix, the first anchor's text and the `rest`. */
  lemma FoundLayout(anchors: seq<Anchor>, prefixes: seq<string>, tail: string) returns (text: string, rest: string)
    requires |prefixes| == |anchors| > 0
    ensures text == Consumed(anchors, prefixes) + tail
    ensures rest == Consumed(anchors[1..], prefixes[1..]) + tail
    ensures text == prefixes[0] + anchors[0].textContent + rest
  {
    var consumedRest := Consumed(anchors[1..], prefixes[1..]);
    text := Consumed(anchors, prefixes) + tail;
    rest := consumedRest + tail;
    AppendAssoc(prefixes[0] + anchors[0].textContent, consumedRest, tail);
  }

  /** Dropping the first anchor and its prefix keeps the first-occurrence property. */
  lemma FirstOccurrencesTail(anchors: seq<Anchor>, prefixes: seq<string>)
    requires |prefixes| == |anchors| > 0
    requires FirstOccurrences(anchors, prefixes)
    ensures FirstOccurrences(anchors[1..], prefixes[1..])
    ensures IndexOf(prefixes[0] + anchors[0].textContent, anchors[0].textContent) == |prefixes[0]|
  {
    forall i | 0 <= i < |anchors| - 1
      ensures IndexOf(prefixes[1..][i] + anchors[1..][i].textContent, anchors[1..][i].textContent)
           == |prefixes[1..][i]|
    {
      assert prefixes[1..][i] == prefixes[i + 1] && anchors[1..][i] == anchors[i + 1];
    }
  }

  /** Without anchors the plaintext comes back unchanged. */
  lemma TransformNoAnchors(text: string, format: Anchor -> string)
    ensures Transform([], text, format) == text
  {
  }

  /**
    An anchor whose text is absent does not leave the plaintext alone: the
    transform keeps only its last character.
   */
  lemma {:induction false} NotFoundKeepsLastCharacter(a: Anchor, text: string, format: Anchor -> string)
    requires !Occurs(text, a.textContent)
    ensures Transform([a], text, format) == (if text == "" then "" else [text[|text| - 1]])
  {
    StepWhenNotFound(text, a, format);
    assert [a][1..] == [];
  }

  /** A concrete instance: an anchor `bananas` against `Hello world` leaves `d`. */
  lemma NotFoundExample(format: Anchor -> string)
    ensures Transform([Anchor("bananas", "https://b.test/")], "Hello world", format) == "d"
  {
    var text := "Hello world";
    forall j | 0 <= j && j + 7 <= |text|
      ensures !OccursAt(text, "bananas", j)
    {
      assert text[j..j + 7][1] == text[j + 1] != 'a';
    }
    NotFoundKeepsLastCharacter(Anchor("bananas", "https://b.test/"), text, format);
  }

  /**
    The transform as evidently intended: an anchor whose text is not found
    is skipped and the plaintext buffer is left as it was.
   */
  function TransformSkipping(anchors: seq<Anchor>, text: string, format: Anchor -> string): string
    decreases |anchors|
  {
    if |anchors| == 0 then text
    else if TrimAfter(text, anchors[0].textContent).index == -1 then
      TransformSkipping(anchors[1..], text, format)
    else
      var s := Step(text, anchors[0], format);
      s.0 + TransformSkipping(anchors[1..], s.1, format)
  }

  /** An anchor whose text is not in the buffer makes no difference to the corrected transform. */
  lemma SkippingIgnoresUnfound(anchors: seq<Anchor>, text: string, format: Anchor -> string)
    requires |anchors| > 0 && !Occurs(text, anchors[0].textContent)
    ensures TransformSkipping(anchors, text, format) == TransformSkipping(anchors[1..], text, format)
  {
  }

  /** When no anchor's text occurs in the plaintext, the corrected transform changes nothing. */
  lemma {:induction false} SkippingNoneFound(anchors: seq<Anchor>, text: string, format: Anchor -> string)
    requires forall i :: 0 <= i < |anchors| ==> !Occurs(text, anchors[i].textContent)
    ensures TransformSkipping(anchors, text, format) == text
    decreases |anchors|
  {
    if |anchors| > 0 {
      assert !Occurs(text, anchors[0].textContent);
      assert forall i :: 0 <= i < |anchors| - 1 ==> anchors[1..][i] == anchors[i + 1];
      SkippingNoneFound(anchors[1..], text, format);
    }
  }

  /** When every anchor is found, the corrected transform agrees with the one as written. */
  lemma {:induction false} SkippingAllFound(anchors: seq<Anchor>, prefixes: seq<string>, tail: string, format: Anchor -> string)
    requires |prefixes| == |anchors|
    requires FirstOccurrences(anchors, prefixes)
    ensures TransformSkipping(anchors, Consumed(anchors, prefixes) + tail, format)
         == Rendered(anchors, prefixes, format) + tail
    decreases |anchors|
  {
    if |anchors| > 0 {
      var a, p := anchors[0], prefixes[0];
      var text, rest := FoundLayout(anchors, prefixes, tail);
      StepFound(p, a, rest, format);
      assert TrimAfter(text, a.textContent).index != -1 by {
        assert text[|p|..|p| + |a.textContent|] == a.textContent;
        assert OccursAt(text, a.textContent, |p|);
      }
      FirstOccurrencesTail(anchors, prefixes);
      SkippingAllFound(anchors[1..], prefixes[1..], tail, format);
      var head := p + Expand(format(a), p, a.textContent, "");
      assert TransformSkipping(anchors, text, format) == head + TransformSkipping(anchors[1..], rest, format);
      AppendAssoc(head, Rendered(anchors[1..], prefixes[1..], format), tail);
    }
  }

  /**
    Two anchors found left to right: `See A and B` with anchors `A` to `u1`
    and `B` to `u2` becomes `See [A](u1) and [B](u2)`.
   */
  lemma TwoAnchorsExample()
    ensures Transform([Anchor("A", "u1"), Anchor("B", "u2")], "See A and B", Linkify)
         == "See [A](u1) and [B](u2)"
  {
    var anchors := [Anchor("A", "u1"), Anchor("B", "u2")];
    var prefixes := ["See ", " and "];
    TwoAnchorsLayout(anchors, prefixes);
    TransformAllFound(anchors, prefixes, "", Linkify);
  }

  /** How the example's plaintext splits, and what the split renders to. */
  lemma TwoAnchorsLayout(anchors: seq<Anchor>, prefixes: seq<string>)
    requires anchors == [Anchor("A", "u1"), Anchor("B", "u2")] && prefixes == ["See ", " and "]
    ensures FirstOccurrences(anchors, prefixes)
    ensures Consumed(anchors, prefixes) + "" == "See A and B"
    ensures Rendered(anchors, prefixes, Linkify) + "" == "See [A](u1) and [B](u2)"
  {
    TwoAnchorsFirst(anchors, prefixes);
    TwoAnchorsConsumed(anchors, prefixes);
    RenderedLinks(anchors, prefixes);
  }

  /** The example's anchor texts are each first found right after their prefix; split out for the solver. */
  lemma TwoAnchorsFirst(anchors: seq<Anchor>, prefixes: seq<string>)
    requires anchors == [Anchor("A", "u1"), Anchor("B", "u2")] && prefixes == ["See ", " and "]
    ensures FirstOccurrences(anchors, prefixes)
  {
    FirstOccurrenceAtEnd("See ", "A");
    FirstOccurrenceAtEnd(" and ", "B");
  }

  /** The example's plaintext is what the two anchors consume; split out for the solver. */
  lemma TwoAnchorsConsumed(anchors: seq<Anchor>, prefixes: seq<string>)
    requires anchors == [Anchor("A", "u1"), Anchor("B", "u2")] && prefixes == ["See ", " and "]
    ensures Consumed(anchors, prefixes) == "See A and B"
  {
    assert anchors[1..] == [anchors[1]] && prefixes[1..] == [" and "];
    ConsumedSingle(anchors[1], " and ");
    assert "See " + "A" + " and B" == "See A and B";
  }

  /** The example's rendering, written out; split out for the solver. */
  lemma RenderedLinks(anchors: seq<Anchor>, prefixes: seq<string>)
    requires anchors == [Anchor("A", "u1"), Anchor("B", "u2")] && prefixes == ["See ", " and "]
    ensures Rendered(anchors, prefixes, Linkify) == "See [A](u1) and [B](u2)"
  {
    var la := ExampleLink("A", "u1");
    var lb := ExampleLink("B", "u2");
    RenderedTwoPlain(anchors[0], anchors[1], "See ", " and ", Linkify);
    ExampleConcat(la, lb);
  }

  /** The example's rendered pieces, joined. */
  lemma ExampleConcat(la: string, lb: string)
    requires la == "[A](u1)" && lb == "[B](u2)"
    ensures "See " + la + " and " + lb == "See [A](u1) and [B](u2)"
  {
  }

  /** A link to a one-character label and a two-character URL, written out. */
  lemma ExampleLink(text: string, dest: string) returns (r: string)
    requires |text| == 1 && |dest| == 2 && text[0] != '$' && dest[0] != '$' && dest[1] != '$'
    ensures r == Linkify(Anchor(text, dest)) && '$' !in r
    ensures r == ['[', text[0], ']', '(', dest[0], dest[1], ')']
  {
    r := Linkify(Anchor(text, dest));
  }

  /** Two found anchors whose formatter output has no `$` render as prefix, output, prefix, output. */
  lemma RenderedTwoPlain(a: Anchor, b: Anchor, p: string, q: string, format: Anchor -> string)
    requires '$' !in format(a) && '$' !in format(b)
    ensures Rendered([a, b], [p, q], format) == p + format(a) + q + format(b)
  {
    ExpandWithoutDollar(format(a), p, a.textContent, "");
    ExpandWithoutDollar(format(b), q, b.textContent, "");
    RenderedSingle(b, q, format);
    assert [a, b][1..] == [b] && [p, q][1..] == [q];
  }

  /** A single found anchor consumes its prefix and its text. */
  lemma ConsumedSingle(a: Anchor, prefix: string)
    ensures Consumed([a], [prefix]) == prefix + a.textContent
  {
    assert Consumed([a][1..], [prefix][1..]) == "";
  }

  /** A single found anchor renders as its prefix and the expanded formatter output. */
  lemma RenderedSingle(a: Anchor, prefix: string, format: Anchor -> string)
    ensures Rendered([a], [prefix], format) == prefix + Expand(format(a), prefix, a.textContent, "")
  {
    assert Rendered([a][1..], [prefix][1..], format) == "";
  }

  /** A single character absent from a prefix is first found right after it. */
  lemma FirstOccurrenceAtEnd(prefix: string, c: string)
    requires |c| == 1 && c[0] !in prefix
    ensures IndexOf(prefix + c, c) == |prefix|
  {
    var s := prefix + c;
    assert OccursAt(s, c, |prefix|);
    forall j | 0 <= j < |prefix|
      ensures !OccursAt(s, c, j)
    {
      assert s[j..j + 1][0] == prefix[j];
    }
  }
}
