/**
 * Structural signals taken from rendered content: the first image
 * paragraph of the block array, the title/body split at the first `</h1>`,
 * and the URL and alt text of the first image.
 */
module Content {
  import opened Values
  import opened Text

  /**
   * A block of the parsed markdown array: `$block['name']` and
   * `$block['handler']['argument']`, each possibly unset.
   */
  datatype Block = Block(name: Option<string>, argument: Option<string>)

  /** PHP `substr($s, 0, $n)` for a non-negative length. */
  function Substr(s: string, n: nat): (r: string)
    ensures |r| == if |s| < n then |s| else n
    ensures r == s[..|r|]
  {
    if |s| <= n then s else s[..n]
  }

  /** A paragraph whose raw text starts with the markdown image opener `![`. */
  predicate IsImageParagraph(b: Block) {
    && b.name == Some("p")
    && b.argument.Some?
    && |b.argument.value| >= 2
    && b.argument.value[..2] == "!["
  }

  /** The raw text of the first image paragraph of the block array, if any. */
  function FirstImageParagraph(blocks: seq<Block>): (r: Option<string>)
    ensures r.None? <==> forall i :: 0 <= i < |blocks| ==> !IsImageParagraph(blocks[i])
    ensures r.Some? ==> exists i :: (0 <= i < |blocks| && IsImageParagraph(blocks[i]) &&
                                     r.value == blocks[i].argument.value &&
                                     forall j :: 0 <= j < i ==> !IsImageParagraph(blocks[j]))
    decreases |blocks|
  {
    if |blocks| == 0 then None
    else if IsImageParagraph(blocks[0]) then Some(blocks[0].argument.value)
    else
      var r := FirstImageParagraph(blocks[1..]);
      assert forall i :: 1 <= i < |blocks| ==> blocks[i] == blocks[1..][i - 1];
      assert r.Some? ==> exists i :: (1 <= i < |blocks| && IsImageParagraph(blocks[i]) &&
                                      r.value == blocks[i].argument.value &&
                                      forall j :: 0 <= j < i ==> !IsImageParagraph(blocks[j]));
      r
  }

  /** `getFirstImage`: the early-return search for the first image paragraph. */
  method GetFirstImage(blocks: seq<Block>) returns (image: Option<string>)
    ensures image == FirstImageParagraph(blocks)
  {
    for i := 0 to |blocks|
      invariant FirstImageParagraph(blocks[i..]) == FirstImageParagraph(blocks)
    {
      assert blocks[i..][0] == blocks[i] && blocks[i..][1..] == blocks[i + 1..];
      var block := blocks[i];
      if block.name.Some? && block.name.value == "p" {
        if block.argument.Some? && Substr(block.argument.value, 2) == "![" {
          return Some(block.argument.value);
        }
      }
    }
    return None;
  }

  const CloseH1: string := "</h1>"

  /** The page title and the content that is rendered below it. */
  datatype TitledContent = TitledContent(title: string, body: string)

  /**
   * The split of the rendered HTML at `</h1>`: the title is the tag-stripped
   * first piece (the site title would only be used if there were no first
   * piece, and `explode` always returns one), the body is the second piece,
   * or the whole HTML when there is none.
   */
  function SplitTitle(html: string, siteTitle: string): (r: TitledContent)
    ensures '<' !in r.title
  {
    var parts := Explode(CloseH1, html);
    TitledContent(
      if |parts| > 0 then StripTags(parts[0]) else siteTitle,
      if |parts| > 1 then parts[1] else html)
  }

  /**
   * Without `</h1>` the title is the stripped whole HTML and the body the
   * whole HTML; otherwise the title is the stripped text before the first
   * `</h1>` and the body the text up to the second `</h1>`, or to the end.
   * The site title is never used.
   */
  lemma SplitTitleAtFirstHeading(html: string, siteTitle: string)
    ensures FindFrom(html, CloseH1, 0).None? ==>
      SplitTitle(html, siteTitle) == TitledContent(StripTags(html), html)
    ensures FindFrom(html, CloseH1, 0).Some? ==>
      var i := FindFrom(html, CloseH1, 0).value;
      SplitTitle(html, siteTitle) == TitledContent(
        StripTags(html[..i]),
        PieceFrom(html, CloseH1, i + 5))
  {
    ExplodeOfNoOccurrence(CloseH1, html);
    if FindFrom(html, CloseH1, 0).Some? {
      ExplodeFirstTwo(CloseH1, html, FindFrom(html, CloseH1, 0).value);
    }
  }

  /** The HTML of a page that starts with a heading. */
  lemma SplitTitleExample()
    ensures SplitTitle("<h1>Hello</h1><p>World</p>", "Site") == TitledContent("Hello", "<p>World</p>")
  {
    ExampleHeadingPositions("<h1>Hello</h1><p>World</p>");
    ExampleSplit("<h1>Hello</h1><p>World</p>");
    StripTagsExample();
  }

  lemma ExampleHeadingPositions(html: string)
    requires html == "<h1>Hello</h1><p>World</p>"
    ensures FindFrom(html, CloseH1, 0) == Some(9)
    ensures FindFrom(html, CloseH1, 14) == None
  {
    assert OccursAt(html, CloseH1, 9) by {
      assert html[9..14] == CloseH1;
    }
    ExampleNoHeadingBefore(html);
    FindFromFinds(html, CloseH1, 0, 9);
    ExampleNoHeadingAfter(html);
  }

  lemma ExampleNoHeadingBefore(html: string)
    requires html == "<h1>Hello</h1><p>World</p>"
    ensures forall j :: 0 <= j < 9 ==> !OccursAt(html, CloseH1, j)
  {
    assert html[3] == '>' && html[4] == 'H' && html[5] == 'e';
    assert html[6] == 'l' && html[7] == 'l' && html[8] == 'o';
    assert html[9] == '<' && html[10] == '/' && html[11] == 'h';
    forall j | 0 <= j < 9 ensures !OccursAt(html, CloseH1, j) {
      assert html[j + 3] != '1';
    }
  }

  lemma ExampleNoHeadingAfter(html: string)
    requires html == "<h1>Hello</h1><p>World</p>"
    ensures forall j :: 14 <= j ==> !OccursAt(html, CloseH1, j)
  {
    forall j | 14 <= j ensures !OccursAt(html, CloseH1, j) {
      if j + 5 <= |html| {
        assert html[j + 3] != '1';
      }
    }
  }

  lemma ExampleSplit(html: string)
    requires html == "<h1>Hello</h1><p>World</p>"
    requires FindFrom(html, CloseH1, 0) == Some(9)
    requires FindFrom(html, CloseH1, 14) == None
    ensures SplitTitle(html, "Site") == TitledContent(StripTags("<h1>Hello"), "<p>World</p>")
  {
    SplitTitleAtFirstHeading(html, "Site");
    assert html[..9] == "<h1>Hello";
    assert html[14..] == "<p>World</p>";
  }

  lemma StripTagsExample()
    ensures StripTags("<h1>Hello") == "Hello"
  {
    var s := "<h1>Hello";
    assert s[1..][1..][1..][1..] == "Hello";
    StripTagsKeepsPlainText("Hello");
    assert StripFrom(s, false) == StripFrom(s[1..], true) == StripFrom(s[1..][1..], true)
        == StripFrom(s[1..][1..][1..], true) == StripFrom("Hello", false);
  }

  /** What the page receives as its image. */
  datatype PageImage =
    | NoImage
    | RawImage(markdown: string)
    | Image(imgUrl: string, imgAlt: Option<string>)

  /**
   * Lines 174-183: with a non-empty URL capture, the image becomes the pair
   * of base URL plus `/` plus the URL, and the alt capture; otherwise the
   * raw markdown is kept.
   */
  function ExtractImage(firstImage: Option<string>, baseUrl: string): (r: PageImage)
    ensures r.NoImage? <==> firstImage.None?
    ensures r.RawImage? ==> r.markdown == firstImage.value
    ensures r.Image? ==> |r.imgUrl| > |baseUrl| + 1 && r.imgUrl[..|baseUrl| + 1] == baseUrl + "/"
  {
    match firstImage
    case None => NoImage
    case Some(raw) =>
      if !StringTruthy(raw) then RawImage(raw)
      else match LazyCapture(raw, '(', ')')
        case None => RawImage(raw)
        case Some(url) =>
          if StringTruthy(url) then Image(baseUrl + "/" + url, LazyCapture(raw, '[', ']'))
          else RawImage(raw)
  }

  /**
   * An image is produced exactly when the raw text has a `(...)` group on
   * one line whose capture is neither "" nor "0"; its URL is that capture
   * after the base URL, and holds no `)` and no newline; its alt text is the
   * first `[...]` capture, absent when there is none.
   */
  lemma ExtractImageCases(raw: string, baseUrl: string)
    requires |raw| >= 2 && raw[..2] == "!["
    ensures ExtractImage(Some(raw), baseUrl).Image? <==>
      LazyCapture(raw, '(', ')').Some? && StringTruthy(LazyCapture(raw, '(', ')').value)
    ensures ExtractImage(Some(raw), baseUrl).Image? ==>
      var url := LazyCapture(raw, '(', ')').value;
      && ExtractImage(Some(raw), baseUrl).imgUrl == baseUrl + "/" + url
      && ExtractImage(Some(raw), baseUrl).imgAlt == LazyCapture(raw, '[', ']')
      && ')' !in url && '\n' !in url
    ensures !ExtractImage(Some(raw), baseUrl).Image? ==> ExtractImage(Some(raw), baseUrl) == RawImage(raw)
  {
    assert raw[0] == '!';
  }

  /**
   * For an image paragraph whose `![` is closed by a `]` on the same line,
   * the alt text is exactly what lies between them.
   */
  lemma AltTextFollowsOpener(raw: string, k: nat)
    requires |raw| >= 2 && raw[..2] == "!["
    requires ClosesAt(raw, ']', 2, k)
    ensures LazyCapture(raw, '[', ']') == Some(raw[2..k])
  {
    assert raw[0] == '!' && raw[1] == '[';
    LazyCaptureIsLeftmost(raw, '[', ']', 1, k);
  }

  /** The image of a typical image paragraph. */
  lemma ExtractImageExample()
    ensures ExtractImage(Some("![alt text](images/pic.png)"), "http://site")
         == Image("http://site/images/pic.png", Some("alt text"))
  {
    ExampleImage("![alt text](images/pic.png)", "http://site");
  }

  lemma ExampleImage(raw: string, baseUrl: string)
    requires raw == "![alt text](images/pic.png)" && baseUrl == "http://site"
    ensures ExtractImage(Some(raw), baseUrl) == Image("http://site/images/pic.png", Some("alt text"))
  {
    ExampleCaptures(raw);
    assert StringTruthy(raw) by {
      assert raw[0] == '!';
    }
  }

  lemma ExampleCaptures(raw: string)
    requires raw == "![alt text](images/pic.png)"
    ensures LazyCapture(raw, '(', ')') == Some("images/pic.png")
    ensures LazyCapture(raw, '[', ']') == Some("alt text")
  {
    assert raw[12..26] == "images/pic.png";
    ExampleAltClose(raw);
    AltTextFollowsOpener(raw, 10);
    ExampleUrlGroup(raw);
    LazyCaptureIsLeftmost(raw, '(', ')', 11, 26);
  }

  lemma ExampleAltClose(raw: string)
    requires raw == "![alt text](images/pic.png)"
    ensures ClosesAt(raw, ']', 2, 10)
    ensures raw[2..10] == "alt text"
  {
    assert raw == "![" + "alt text" + "](images/pic.png)";
    forall m | 2 <= m < 10 ensures raw[m] != ']' && raw[m] != '\n' {
    }
  }

  lemma ExampleUrlGroup(raw: string)
    requires raw == "![alt text](images/pic.png)"
    ensures GroupAt(raw, '(', ')', 11, 26)
    ensures forall i', k' :: 0 <= i' < 11 ==> !GroupAt(raw, '(', ')', i', k')
  {
    forall m | 12 <= m < 26 ensures raw[m] != ')' && raw[m] != '\n' {
    }
    forall i', k' | 0 <= i' < 11 ensures !GroupAt(raw, '(', ')', i', k') {
      assert raw[i'] != '(';
    }
  }

  /** A URL capture of "0" is false to PHP, so the raw markdown is kept. */
  lemma ExtractImageZeroUrl()
    ensures ExtractImage(Some("![a](0)"), "http://site") == RawImage("![a](0)")
  {
    ExampleZero("![a](0)", "http://site");
  }

  lemma ExampleZero(raw: string, baseUrl: string)
    requires raw == "![a](0)"
    ensures ExtractImage(Some(raw), baseUrl) == RawImage(raw)
  {
    ExampleZeroCapture(raw);
    assert StringTruthy(raw) by {
      assert raw[0] == '!';
    }
  }

  lemma ExampleZeroCapture(raw: string)
    requires raw == "![a](0)"
    ensures LazyCapture(raw, '(', ')') == Some("0")
  {
    assert GroupAt(raw, '(', ')', 4, 6);
    forall i', k' | 0 <= i' < 4 ensures !GroupAt(raw, '(', ')', i', k') {
      assert raw[i'] != '(';
    }
    LazyCaptureIsLeftmost(raw, '(', ')', 4, 6);
    assert raw[5..6] == "0";
  }
}
