/**
  The link formatter (`linkify` in src/paste-markdown-html.ts): it writes a
  hyperlink in Markdown link syntax, `[label](url)`.
 */
module LinkFormat {
  import opened JsString
  import opened Wrappers

  /**
    A hyperlink as the transform sees it: the anchor's visible text and its
    destination. Both the parsed anchors of the pasted HTML and the parsed
    link preview are given to the formatter in this shape.
   */
  datatype Anchor = Anchor(textContent: string, href: string)

  /** The anchor written as a Markdown link, `[label](url)`. */
  function Linkify(a: Anchor): string {
    "[" + a.textContent + "](" + a.href + ")"
  }

  /**
    Where the parts of a link sit: the label between the opening `[` and
    the `](` that follows it, the URL between that `](` and the closing `)`.
    Nothing is escaped or skipped, so an empty label or URL leaves an empty
    segment.
   */
  lemma LinkifyLayout(a: Anchor)
    ensures var r := Linkify(a);
      && |r| == |a.textContent| + |a.href| + 4
      && r[0] == '[' && r[|r| - 1] == ')'
      && r[1..|a.textContent| + 1] == a.textContent
      && r[|a.textContent| + 1..|a.textContent| + 3] == "]("
      && r[|a.textContent| + 3..|r| - 1] == a.href
  {
  }

  /**
    Reads a Markdown link back: the label runs up to the first `](`, the URL
    from there to the final `)`. A reference inverse of `Linkify`, not part
    of the paste transform itself.
   */
  function ParseLink(s: string): Option<Anchor> {
    if |s| >= 4 && s[0] == '[' && s[|s| - 1] == ')' then
      var k := IndexOf(s, "](");
      if 1 <= k && k + 2 <= |s| - 1 then Some(Anchor(s[1..k], s[k + 2..|s| - 1]))
      else None
    else None
  }

  /** Whatever `ParseLink` reads is the formatting of what it returns. */
  lemma ParseLinkSound(s: string)
    ensures ParseLink(s).Some? ==> Linkify(ParseLink(s).value) == s
  {
    if ParseLink(s).Some? {
      var k := IndexOf(s, "](");
      assert OccursAt(s, "](", k);
      assert s == "[" + s[1..k] + "](" + s[k + 2..|s| - 1] + ")";
    }
  }

  /** A link whose label holds no `]` is read back exactly. */
  lemma {:induction false} LinkifyRoundTrip(a: Anchor)
    requires ']' !in a.textContent
    ensures ParseLink(Linkify(a)) == Some(a)
  {
    var s := Linkify(a);
    var n := |a.textContent|;
    LinkifyLayout(a);
    SeparatorAfterLabel(a);
    assert s[1..n + 1] == a.textContent;
    assert s[n + 3..|s| - 1] == a.href;
  }

  /** The first `](` of a link whose label holds no `]` is the one after the label. */
  lemma {:induction false} SeparatorAfterLabel(a: Anchor)
    requires ']' !in a.textContent
    ensures IndexOf(Linkify(a), "](") == |a.textContent| + 1
  {
    var s := Linkify(a);
    var n := |a.textContent|;
    LinkifyLayout(a);
    assert OccursAt(s, "](", n + 1);
    forall j | 0 <= j < n + 1
      ensures !OccursAt(s, "](", j)
    {
      assert s[j..j + 2][0] == s[j];
      if j > 0 {
        assert s[j] == a.textContent[j - 1];
      }
    }
  }

  /** The empty label example: `[](https://x.test)`. */
  lemma EmptyLabelExample()
    ensures Linkify(Anchor("", "https://x.test")) == "[](https://x.test)"
  {
  }
}
