/**
  The decision logic of the paste handler (`onPaste` in
  src/paste-markdown-html.ts), with the DOM abstracted away: the event is
  its clipboard payload and whether its target is a textarea, and the
  outcome is either the browser's default paste or the text to insert in
  its place.
 */
module PasteHandler {
  import opened Wrappers
  import opened JsString
  import opened LinkFormat
  import opened Transformer

  const HtmlType: string := "text/html"
  const LinkPreviewType: string := "text/link-preview"

  /** The `text/link-preview` payload after JSON parsing: a page title and its URL. */
  datatype LinkPreview = LinkPreview(title: string, url: string)

  /**
    The clipboard of one paste event: the MIME types it offers and what
    `getData` returns for the plain-text and HTML types, the parsed link
    preview, and the anchors of the parsed HTML in document order.
   */
  datatype Transfer = Transfer(
    types: seq<string>,
    plain: string,
    html: string,
    preview: LinkPreview,
    anchors: seq<Anchor>)

  /** A paste event: its clipboard data, if any, and whether its target is a textarea. */
  datatype PasteEvent = PasteEvent(clipboard: Option<Transfer>, targetIsTextArea: bool)

  /** What the handler does: let the browser paste, or insert this text instead. */
  datatype Outcome = DefaultPaste | InsertText(text: string)

  /** `hasHTML`: the clipboard offers `text/html`. */
  predicate HasHtml(t: Transfer) {
    HtmlType in t.types
  }

  /** `hasLinkPreview`: the clipboard offers `text/link-preview`. */
  predicate HasLinkPreview(t: Transfer) {
    LinkPreviewType in t.types
  }

  /**
    What lines 43-48 compute when there is no link preview: the anchors of
    the parsed HTML transformed into the trimmed plaintext.
   */
  function HtmlWalk(anchors: seq<Anchor>, text: string): string {
    Transform(anchors, text, Linkify)
  }

  /**
    The text the handler builds from the trimmed plaintext: the link
    preview as one Markdown link when the clipboard offers one, and
    otherwise whatever `walk` makes of the anchors of the HTML.
   */
  function Markdown(t: Transfer, text: string, walk: (seq<Anchor>, string) -> string): string {
    if HasLinkPreview(t) then Linkify(Anchor(t.preview.title, t.preview.url))
    else walk(t.anchors, text)
  }

  /**
    The handler with its HTML walk as a parameter, following the guards of
    `onPaste` in their order.
   */
  function DecideWith(ev: PasteEvent, walk: (seq<Anchor>, string) -> string): Outcome {
    if ev.clipboard.None? then DefaultPaste
    else
      var t := ev.clipboard.value;
      if !HasHtml(t) || !HasLinkPreview(t) then DefaultPaste
      else if !ev.targetIsTextArea then DefaultPaste
      else if t.html == "" then DefaultPaste
      else
        var text := Trim(t.plain);
        if text == "" then DefaultPaste
        else
          var markdown := Markdown(t, text, walk);
          if markdown == text then DefaultPaste
          else InsertText(markdown)
  }

  /**
    The handler acts only when the clipboard offers both HTML and a link
    preview, the target is a textarea, the HTML is non-empty and the
    plaintext is not all whitespace; it then inserts the link preview as a
    Markdown link, unless that equals the trimmed plaintext.
   */
  function Decide(ev: PasteEvent): (o: Outcome)
    ensures o.InsertText? <==>
      && ev.clipboard.Some?
      && HtmlType in ev.clipboard.value.types
      && LinkPreviewType in ev.clipboard.value.types
      && ev.targetIsTextArea
      && ev.clipboard.value.html != ""
      && !AllWhitespace(ev.clipboard.value.plain)
      && Linkify(Anchor(ev.clipboard.value.preview.title, ev.clipboard.value.preview.url))
         != Trim(ev.clipboard.value.plain)
    ensures o.InsertText? ==>
      o.text == Linkify(Anchor(ev.clipboard.value.preview.title, ev.clipboard.value.preview.url))
  {
    DecideWith(ev, HtmlWalk)
  }

  /**
    Whatever lines 43-48 compute is never used: the guard on line 18 has
    already demanded a link preview when line 34 tests for one, so any two
    HTML walks give the same outcome.
   */
  lemma {:induction false} HtmlWalkIgnored(ev: PasteEvent, w1: (seq<Anchor>, string) -> string, w2: (seq<Anchor>, string) -> string)
    ensures DecideWith(ev, w1) == DecideWith(ev, w2)
  {
  }

  /**
    The HTML-walk branch is never reached: the outcome does not depend on
    the anchors of the HTML, nor on the HTML beyond its being non-empty.
   */
  lemma HtmlWalkUnreachable(ev: PasteEvent, html: string, anchors: seq<Anchor>)
    requires ev.clipboard.Some?
    requires (html == "") == (ev.clipboard.value.html == "")
    ensures Decide(PasteEvent(Some(ev.clipboard.value.(html := html, anchors := anchors)), ev.targetIsTextArea))
         == Decide(ev)
  {
  }

  /**
    A paste with HTML and a link preview into a textarea: the plaintext
    `Check this out` is replaced by the preview's link.
   */
  lemma PreviewExample()
    ensures Decide(PasteEvent(Some(Transfer(
              ["text/plain", "text/html", "text/link-preview"],
              "Check this out",
              "<a href=\"https://d.test\">Docs</a>",
              LinkPreview("Docs", "https://d.test"),
              [Anchor("Docs", "https://d.test")])), true))
         == InsertText("[Docs](https://d.test)")
  {
    var t := Transfer(
      ["text/plain", "text/html", "text/link-preview"],
      "Check this out",
      "<a href=\"https://d.test\">Docs</a>",
      LinkPreview("Docs", "https://d.test"),
      [Anchor("Docs", "https://d.test")]);
    PreviewGuards(t);
    PreviewPlainText(t.plain);
    PreviewLinkText(t.preview);
  }

  /** The example offers both HTML and a link preview; split out for the solver. */
  lemma PreviewGuards(t: Transfer)
    requires t.types == ["text/plain", "text/html", "text/link-preview"]
    ensures HasHtml(t) && HasLinkPreview(t)
  {
    assert t.types[1] == HtmlType && t.types[2] == LinkPreviewType;
  }

  /** The example's plaintext is already trimmed and does not start like a link; split out for the solver. */
  lemma PreviewPlainText(plain: string)
    requires plain == "Check this out"
    ensures Trim(plain) == plain && !AllWhitespace(plain) && plain[0] != '['
  {
    TrimUntouched(plain);
  }

  /** The example's preview as a Markdown link; split out for the solver. */
  lemma PreviewLinkText(p: LinkPreview)
    requires p == LinkPreview("Docs", "https://d.test")
    ensures Linkify(Anchor(p.title, p.url)) == "[Docs](https://d.test)"
  {
  }

  /** Without a link preview the default paste proceeds, whatever else the clipboard holds. */
  lemma NoPreviewExample(plain: string, html: string, anchors: seq<Anchor>, preview: LinkPreview)
    ensures Decide(PasteEvent(Some(Transfer(["text/plain", "text/html"], plain, html, preview, anchors)), true))
         == DefaultPaste
  {
    assert LinkPreviewType !in ["text/plain", "text/html"];
  }
}
