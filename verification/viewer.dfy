/** The HTML page written next to the archived video: a fixed template with
    the title and the video's `src` inserted verbatim. */
module Viewer {
  import opened Wrappers
  import opened JavaStrings

  /** The restrictive policy every meta tag of the page declares. */
  const Policy := "default-src 'self'; script-src 'self'"

  /** The page up to the first policy. */
  const Opening := "<html>\n<head>\n<meta http-equiv=\"Content-Security-Policy\" content=\""

  /** Everything before the title. */
  const Head := Opening + Policy + AfterPolicy

  /** The rest of the page before the title. */
  const AfterPolicy := "\">\n"
    + " <meta http-equiv=\"X-Content-Security-Policy\" content=\"" + Policy + "\">\n"
    + " <meta http-equiv=\"X-WebKit-CSP\" content=\"" + Policy + "\">\n"
    + "<title>"

  /** Everything between the title and the video's `src`. */
  const Middle := "</title>\n</head>\n\n<body>\n<video src=\""

  /** Everything after the video's `src`. */
  const Tail := "\" controls>\n</video>\n</body>\n\n</html>"

  /** `head`, `title`, `middle`, `src` and `tail` in a row. */
  function Fill(head: string, middle: string, tail: string, title: string, src: string): (doc: string)
    ensures |doc| == |head| + |title| + |middle| + |src| + |tail|
    ensures doc[..|head|] == head
    ensures doc[|head|..|head| + |title|] == title
    ensures doc[|head| + |title|..|head| + |title| + |middle|] == middle
    ensures doc[|doc| - |tail| - |src|..|doc| - |tail|] == src
    ensures doc[|doc| - |tail|..] == tail
  {
    head + title + middle + src + tail
  }

  /** A string is its first `i` characters, the next `n`, and the rest. */
  lemma ThreeParts(s: string, i: nat, n: nat)
    requires i + n <= |s|
    ensures s == s[..i] + s[i..i + n] + s[i + n..]
  {
  }

  /** A document with the fixed head and tail and an occurrence of `middle`
      at `i` of the part between them is a `Fill` around that occurrence. */
  lemma Reassemble(head: string, middle: string, tail: string, doc: string, i: nat)
    requires |head| + |tail| <= |doc|
    requires doc[..|head|] == head && doc[|doc| - |tail|..] == tail
    requires OccursAt(doc[|head|..|doc| - |tail|], middle, i)
    ensures
      var body := doc[|head|..|doc| - |tail|];
      doc == Fill(head, middle, tail, body[..i], body[i + |middle|..])
  {
    var body := doc[|head|..|doc| - |tail|];
    ThreeParts(body, i, |middle|);
    ThreeParts(doc, |head|, |body|);
  }

  /** Splits `doc` back into the title and `src` of a `Fill` with the same
      fixed parts, cutting at the first `middle`. */
  function Unfill(head: string, middle: string, tail: string, doc: string): (r: Option<(string, string)>)
    ensures r.Some? ==> doc == Fill(head, middle, tail, r.value.0, r.value.1)
  {
    if |doc| < |head| + |tail| || doc[..|head|] != head || doc[|doc| - |tail|..] != tail then None
    else
      var body := doc[|head|..|doc| - |tail|];
      var m := IndexOf(body, middle);
      if m.None? then None
      else
        Reassemble(head, middle, tail, doc, m.value);
        Some((body[..m.value], body[m.value + |middle|..]))
  }

  /** When the title cannot start the middle part, `Unfill` undoes `Fill`. */
  lemma UnfillFill(head: string, middle: string, tail: string, title: string, src: string)
    requires |middle| > 0 && middle[0] !in title
    ensures Unfill(head, middle, tail, Fill(head, middle, tail, title, src)) == Some((title, src))
  {
    var doc := Fill(head, middle, tail, title, src);
    var body := doc[|head|..|doc| - |tail|];
    assert body == title + middle + src;
    assert OccursAt(body, middle, |title|) by {
      assert body[|title|..|title| + |middle|] == middle;
    }
    forall j | 0 <= j < |title| ensures !OccursAt(body, middle, j) {
      assert body[j] == title[j];
      if j + |middle| <= |body| {
        assert body[j..j + |middle|][0] == body[j];
      }
    }
    var m := IndexOf(body, middle);
    assert m.Some?;
    assert m.value == |title|;
    assert body[..|title|] == title;
    assert body[|title| + |middle|..] == src;
  }

  /** The page for `title` playing `videoFile`. */
  function ViewerHtml(title: string, videoFile: string): (doc: string)
    ensures |doc| == |Head| + |title| + |Middle| + |videoFile| + |Tail|
    ensures doc[..|Head|] == Head
    ensures doc[|Head|..|Head| + |title|] == title
    ensures doc[|Head| + |title|..|Head| + |title| + |Middle|] == Middle
    ensures doc[|doc| - |Tail| - |videoFile|..|doc| - |Tail|] == videoFile
    ensures doc[|doc| - |Tail|..] == Tail
    ensures OccursIn(doc, Policy)
  {
    var doc := Fill(Head, Middle, Tail, title, videoFile);
    assert OccursAt(doc, Policy, |Opening|) by {
      assert doc[..|Head|] == Opening + Policy + AfterPolicy;
      assert (Opening + Policy + AfterPolicy)[|Opening|..|Opening| + |Policy|] == Policy;
    }
    doc
  }

  /** Reads the title and the `src` back out of a viewer page; `None` for
      anything else. */
  function ParseViewer(doc: string): (r: Option<(string, string)>)
    ensures r.Some? ==> doc == ViewerHtml(r.value.0, r.value.1)
  {
    Unfill(Head, Middle, Tail, doc)
  }

  /** A title without '<' (a file name, say) and any `src` are recovered from
      the page. */
  lemma ViewerRoundTrip(title: string, videoFile: string)
    requires '<' !in title
    ensures ParseViewer(ViewerHtml(title, videoFile)) == Some((title, videoFile))
  {
    assert Middle[0] == '<';
    UnfillFill(Head, Middle, Tail, title, videoFile);
  }
}
