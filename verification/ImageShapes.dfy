/** Which lines consist of images: the shapes of image references in Markdown, without searching. */
module ImageShapes {
  import opened Options
  import opened Text
  import opened TextLaws
  import opened Markdown

  // ----- the shapes

  predicate Digits(s: string) {
    forall c :: c in s ==> '0' <= c <= '9'
  }

  /** A width, a height, or both with an x between them. */
  ghost predicate SizeForm(s: string) {
    s != "" && s != "x" && (Digits(s) || exists a, b :: s == a + "x" + b && Digits(a) && Digits(b))
  }

  /** A size is set off at k: behind an equals sign that follows a space or a tab. */
  ghost predicate SizeAt(address: string, k: int) {
    1 <= k < |address| && address[k] == '=' && (address[k - 1] == ' ' || address[k - 1] == '\t')
    && SizeForm(address[k + 1..])
  }

  ghost predicate Sized(address: string, src: string, size: string) {
    if exists k :: SizeAt(address, k)
    then exists k :: SizeAt(address, k) && src == TrimEnd(address[..k]) && size == address[k + 1..]
    else src == address && size == ""
  }

  /** The text between the round brackets of an image. */
  ghost predicate Gives(inner: string, src: string, size: string) {
    ')' !in inner && Trim(inner) != "" && src != "" && Sized(Trim(inner), src, size)
  }

  function PlainText(alt: string, gap: string, inner: string, rest: string): string {
    "![" + (alt + ("]" + (gap + ("(" + (inner + (")" + rest))))))
  }

  ghost predicate PlainPieces(s: string, img: ParsedImage, gap: string, inner: string, rest: string) {
    && s == PlainText(img.alt, gap, inner, rest) && ']' !in img.alt && Blank(gap) && Gives(inner, img.src, img.size)
    && img.href == "" && img.consumed == |s| - |rest| - |gap|
  }

  /** An image at the start of s.  White space between the two brackets is allowed but not counted as
      consumed. */
  ghost predicate PlainImageAt(s: string, img: ParsedImage) {
    exists gap, inner, rest :: PlainPieces(s, img, gap, inner, rest)
  }

  ghost predicate LinkPieces(s: string, plain: ParsedImage, link: string, rest: string) {
    && "[" <= s && PlainImageAt(s[1..], plain) && plain.consumed < |s|
    && s[1 + plain.consumed..] == "](" + (link + (")" + rest))
    && ')' !in link && Trim(link) != ""
  }

  /** An image in square brackets with an address behind it is a link. */
  ghost predicate LinkedImageAt(s: string, img: ParsedImage) {
    exists plain: ParsedImage, link, rest ::
      LinkPieces(s, plain, link, rest)
      && img == ParsedImage(plain.src, plain.alt, plain.size, Trim(link), |s| - |rest|)
  }

  ghost predicate ImageAt(s: string, img: ParsedImage) {
    PlainImageAt(s, img) || LinkedImageAt(s, img)
  }

  /** Images and white space, one image at least. */
  ghost predicate ImagesOnly(t: string, images: seq<ParsedImage>)
    decreases |images|
  {
    && images != []
    && ImageAt(t, images[0]) && images[0].consumed <= |t|
    && var rest := TrimStart(t[images[0].consumed..]);
       if |images| == 1 then rest == "" else ImagesOnly(rest, images[1..])
  }

  // ----- sizes

  lemma SplitAt(s: string, i: nat)
    requires i < |s|
    ensures s == s[..i] + ([s[i]] + s[i + 1..])
  {
  }

  lemma Regroup(a: string, b: string, c: string)
    ensures a + b + c == a + (b + c)
  {
  }

  lemma DigitsAre(s: string)
    ensures AllDigits(s) <==> Digits(s)
  {
  }

  lemma SizeIs(s: string)
    ensures IsValidSize(s) <==> SizeForm(s)
  {
    hide Find, AllDigits, Digits;
    if s != "" {
      DigitsAre(s);
      match Find(s, 'x')
      case Some(i) =>
        var a, b := s[..i], s[i + 1..];
        assert s == a + "x" + b;
        DigitsAre(a);
        DigitsAre(b);
        HoldsX(s);
        if c, d :| s == c + "x" + d && Digits(c) && Digits(d) {
          NoX(c);
          FindAfter(c, 'x', d);
          assert c + ['x'] + d == s;
          assert a == c && b == d;
        }
        if s == "x" { assert a == "" && b == ""; }
        if |s| == 1 { assert s == "x"; }
      case None =>
        forall a, b ensures s != a + "x" + b {
          XInside(a, b);
        }
    }
  }

  lemma HoldsX(s: string)
    requires 'x' in s
    ensures !Digits(s)
  {
  }

  lemma XInside(a: string, b: string)
    ensures 'x' in a + "x" + b
  {
    assert (a + "x" + b)[|a|] == 'x';
  }

  lemma NoX(s: string)
    requires Digits(s)
    ensures 'x' !in s
  {
  }

  lemma SizeHasNoEquals(s: string)
    requires SizeForm(s)
    ensures '=' !in s
  {
    if !Digits(s) {
      var a, b :| s == a + "x" + b && Digits(a) && Digits(b);
    }
  }

  /** Only the last equals sign can set off a size. */
  lemma SizeAtLast(address: string, k: int)
    requires SizeAt(address, k)
    ensures FindLast(address, '=') == Some(k)
  {
    hide FindLast, SizeForm;
    SizeHasNoEquals(address[k + 1..]);
    FindLastBefore(address[..k], '=', address[k + 1..]);
    SplitAt(address, k);
    Regroup(address[..k], ['='], address[k + 1..]);
  }

  lemma SplitIs(address: string, src: string, size: string)
    ensures SplitImageSize(address) == (src, size) <==> Sized(address, src, size)
  {
    hide FindLast, IsValidSize, SizeForm, TrimEnd;
    if k :| SizeAt(address, k) {
      SizeAtLast(address, k);
      SizeIs(address[k + 1..]);
      SizedOnce(address, k);
      assert address[..k][|address[..k]| - 1] == address[k - 1];
    } else if FindLast(address, '=').Some? {
      var k := FindLast(address, '=').value;
      SizeIs(address[k + 1..]);
      assert !SizeAt(address, k);
      if k > 0 { assert address[..k][|address[..k]| - 1] == address[k - 1]; }
    }
  }

  lemma SizedOnce(address: string, k: int)
    requires SizeAt(address, k)
    ensures forall j :: SizeAt(address, j) ==> j == k
  {
    hide SizeAt, FindLast;
    SizeAtLast(address, k);
    forall j | SizeAt(address, j) ensures j == k {
      SizeAtLast(address, j);
    }
  }

  // ----- one image

  lemma FindSplits(s: string, c: char)
    requires Find(s, c).Some?
    ensures var i := Find(s, c).value; i < |s| && s == s[..i] + ([c] + s[i + 1..]) && c !in s[..i]
  {
    hide Find;
    SplitAt(s, Find(s, c).value);
  }

  lemma Pieces(before: string, c: char, rest: string)
    ensures var s := before + ([c] + rest); s[..|before|] == before && s[|before| + 1..] == rest
  {
  }

  lemma FindPiece(before: string, c: char, rest: string)
    requires c !in before
    ensures Find(before + ([c] + rest), c) == Some(|before|)
  {
    hide Find;
    FindAfter(before, c, rest);
    Regroup(before, [c], rest);
  }

  lemma AddressTaken(round: string) returns (inner: string, rest: string)
    requires ImageAddress(round).Some?
    ensures var (src, size, end) := ImageAddress(round).value;
            round == inner + (")" + rest) && |inner| == end && Gives(inner, src, size)
  {
    hide Find, SplitImageSize, Trim, Sized;
    FindSplits(round, ')');
    var (src, size, end) := ImageAddress(round).value;
    inner, rest := round[..end], round[end + 1..];
    SplitIs(Trim(inner), src, size);
  }

  lemma AddressRead(inner: string, rest: string, src: string, size: string)
    requires Gives(inner, src, size)
    ensures ImageAddress(inner + (")" + rest)) == Some((src, size, |inner|))
  {
    hide Find, SplitImageSize, Trim, Sized;
    FindPiece(inner, ')', rest);
    Pieces(inner, ')', rest);
    SplitIs(Trim(inner), src, size);
  }

  /** Reading an image takes its text apart. */
  lemma PlainTaken(s: string)
    requires ParsePlainImage(s).Some?
    ensures PlainImageAt(s, ParsePlainImage(s).value)
  {
    hide Find, ImageAddress, TrimStart, Gives, Blank, PlainText;
    var img := ParsePlainImage(s).value;
    var rest := s[1..];
    var close := Find(rest, ']').value;
    FindSplits(rest, ']');
    var behind := rest[close + 1..];
    var gap := TrimStartIs(behind);
    var inner, tail := AddressTaken(TrimStart(behind)[1..]);
    AltHolds(rest, close);
    ShapeOf(s, rest, close, img.alt, behind, gap, TrimStart(behind), inner, tail);
    PlainLength(img.alt, gap, inner, tail);
    assert PlainPieces(s, img, gap, inner, tail);
  }

  lemma AltHolds(rest: string, close: nat)
    requires close < |rest| && "[" <= rest && rest[close] == ']' && ']' !in rest[..close]
    ensures 1 <= close && ']' !in rest[1..close]
  {
    assert rest[0] == '[';
    assert close > 0 ==> rest[..close][1..] == rest[1..close];
  }

  lemma PlainLength(alt: string, gap: string, inner: string, rest: string)
    ensures |PlainText(alt, gap, inner, rest)| == |alt| + |gap| + |inner| + |rest| + 5
  {
  }

  lemma ShapeOf(s: string, rest: string, close: nat, alt: string, behind: string, gap: string, after: string,
                inner: string, tail: string)
    requires "!" <= s && rest == s[1..] && "[" <= rest
    requires 1 <= close < |rest| && alt == rest[1..close] && rest == rest[..close] + ("]" + behind)
    requires behind == gap + after && "(" <= after && after[1..] == inner + (")" + tail)
    ensures s == PlainText(alt, gap, inner, tail)
  {
    assert after == "(" + (inner + (")" + tail));
    assert rest[..close] == "[" + alt;
    assert s == "!" + rest && "!" + "[" == "![";
    assert rest == "[" + (alt + ("]" + behind));
    assert "!" + ("[" + (alt + ("]" + behind))) == "![" + (alt + ("]" + behind));
  }

  /** A text of that shape is read as that image. */
  lemma PlainRead(s: string, img: ParsedImage)
    requires PlainImageAt(s, img)
    ensures ParsePlainImage(s) == Some(img)
  {
    hide PlainPieces, ParsePlainImage;
    var gap, inner, rest :| PlainPieces(s, img, gap, inner, rest);
    PiecesRead(s, img, gap, inner, rest);
  }

  lemma PiecesRead(s: string, img: ParsedImage, gap: string, inner: string, rest: string)
    requires PlainPieces(s, img, gap, inner, rest)
    ensures ParsePlainImage(s) == Some(img)
  {
    hide ParsePlainImage, Find, ImageAddress, TrimStart, Gives, Blank, PlainText;
    PlainLength(img.alt, gap, inner, rest);
    var behind := BehindAlt(s, img.alt, gap, inner, rest);
    AddressRead(inner, rest, img.src, img.size);
    PlainUnfolds(s, |img.alt| + 1);
  }

  lemma PlainUnfolds(s: string, close: nat)
    requires "!" <= s && "[" <= s[1..] && Find(s[1..], ']') == Some(close) && close > 0
    requires "(" <= TrimStart(s[1..][close + 1..])
    ensures ParsePlainImage(s) ==
            match ImageAddress(TrimStart(s[1..][close + 1..])[1..])
            case None => None
            case Some((src, size, end)) =>
              Some(ParsedImage(src, s[1..][1..close], size, "", close + end + 4))
  {
    hide Find, ImageAddress, TrimStart;
  }

  lemma BehindAlt(s: string, alt: string, gap: string, inner: string, rest: string) returns (behind: string)
    requires s == PlainText(alt, gap, inner, rest) && ']' !in alt && Blank(gap)
    ensures "!" <= s && "[" <= s[1..] && Find(s[1..], ']') == Some(|alt| + 1)
    ensures s[1..][1..|alt| + 1] == alt && s[1..][|alt| + 2..] == behind
    ensures "(" <= TrimStart(behind) && TrimStart(behind)[1..] == inner + (")" + rest)
  {
    hide Find, TrimStart, Blank;
    var after := "(" + (inner + (")" + rest));
    behind := gap + after;
    AltPiece(s, alt, behind);
    SpaceOfParen();
    TrimStartDrops(gap, after);
  }

  lemma SpaceOfParen()
    ensures !Space('(')
  {
  }

  lemma AltPiece(s: string, alt: string, behind: string)
    requires s == "![" + (alt + ("]" + behind)) && ']' !in alt
    ensures "!" <= s && "[" <= s[1..] && Find(s[1..], ']') == Some(|alt| + 1)
    ensures s[1..][1..|alt| + 1] == alt && s[1..][|alt| + 2..] == behind
  {
    hide Find;
    var rest, front := s[1..], "[" + alt;
    assert "![" == "!" + "[";
    assert rest == front + ("]" + behind);
    FindPiece(front, ']', behind);
    Pieces(front, ']', behind);
    assert rest[1..|alt| + 1] == rest[..|alt| + 1][1..];
  }

  lemma LinkTaken(s: string)
    requires "[" <= s && ParseImage(s).Some?
    ensures LinkedImageAt(s, ParseImage(s).value)
  {
    hide Find, ParsePlainImage, Trim, PlainImageAt;
    var plain := ParsePlainImage(s[1..]).value;
    PlainTaken(s[1..]);
    var tail := s[1..][plain.consumed..];
    assert tail == s[1 + plain.consumed..] && tail == "](" + tail[2..];
    FindSplits(tail[2..], ')');
    var close := Find(tail[2..], ')').value;
    assert LinkPieces(s, plain, tail[2..][..close], tail[2..][close + 1..]);
  }

  lemma LinkRead(s: string, img: ParsedImage)
    requires LinkedImageAt(s, img)
    ensures ParseImage(s) == Some(img)
  {
    hide Find, ParsePlainImage, Trim, PlainImageAt;
    var plain: ParsedImage, link, rest :|
      LinkPieces(s, plain, link, rest)
      && img == ParsedImage(plain.src, plain.alt, plain.size, Trim(link), |s| - |rest|);
    PlainRead(s[1..], plain);
    PlainHasNoLink(s[1..], plain);
    LinkTail(s, plain.consumed, link, rest);
    FindPiece(link, ')', rest);
    Pieces(link, ')', rest);
    LinkUnfolds(s, plain, |link|);
  }

  lemma LinkTail(s: string, n: nat, link: string, rest: string)
    requires 1 + n <= |s| && s[1 + n..] == "](" + (link + (")" + rest))
    ensures s[1..][n..] == s[1 + n..] && "](" <= s[1..][n..] && s[1..][n..][2..] == link + (")" + rest)
    ensures |s| == 1 + n + 2 + |link| + 1 + |rest|
  {
    assert s[1..][n..] == s[1 + n..];
  }

  lemma LinkUnfolds(s: string, plain: ParsedImage, close: nat)
    requires "[" <= s && ParsePlainImage(s[1..]) == Some(plain) && "](" <= s[1..][plain.consumed..]
    requires Find(s[1..][plain.consumed..][2..], ')') == Some(close)
    ensures var href := Trim(s[1..][plain.consumed..][2..][..close]);
            ParseImage(s) == if href == "" then None
                             else Some(plain.(href := href, consumed := 1 + plain.consumed + 2 + close + 1))
  {
    hide Find, ParsePlainImage, Trim;
  }

  lemma PlainHasNoLink(s: string, img: ParsedImage)
    requires PlainImageAt(s, img)
    ensures img.href == "" && "!" <= s
  {
    hide Sized, Trim, Blank;
  }

  /** What is read at the start of a text is exactly what the shapes say. */
  lemma ImageIs(s: string, img: ParsedImage)
    ensures ParseImage(s) == Some(img) <==> ImageAt(s, img)
  {
    hide ParsePlainImage, PlainImageAt, LinkedImageAt;
    if PlainImageAt(s, img) {
      PlainAlone(s, img);
    } else if LinkedImageAt(s, img) {
      LinkRead(s, img);
    } else if ParseImage(s) == Some(img) {
      if "[" <= s { LinkTaken(s); } else { NoLink(s); }
    }
  }

  lemma PlainAlone(s: string, img: ParsedImage)
    requires PlainImageAt(s, img)
    ensures ParseImage(s) == Some(img)
  {
    hide ParsePlainImage, PlainImageAt;
    PlainRead(s, img);
    PlainHasNoLink(s, img);
    assert !("[" <= s) by { assert s[0] == "!"[0]; }
  }

  lemma NoLink(s: string)
    requires !("[" <= s) && ParseImage(s).Some?
    ensures PlainImageAt(s, ParseImage(s).value)
  {
    hide ParsePlainImage, PlainImageAt;
    PlainTaken(s);
  }

  // ----- lines

  lemma ImageStarts(s: string)
    requires ParseImage(s).Some?
    ensures StartsImage(s) && s != ""
  {
    hide Find, Trim, TrimStart, ImageAddress;
    if "[" <= s { assert s == "[" + s[1..] && "[!" + "[" == "[![" && "[" + "![" == "[!["; }
  }

  /** The run of images ends where no image is read, or with the last one. */
  lemma RunUnfolds(t: string)
    ensures match ParseImage(t)
            case None => ImageRun(t) == ([], t)
            case Some(img) =>
              var rest := TrimStart(t[img.consumed..]);
              |rest| < |t| && if rest == "" || !StartsImage(rest) then ImageRun(t) == ([img], rest)
                              else ImageRun(t) == ([img] + ImageRun(rest).0, ImageRun(rest).1)
  {
    hide ParseImage, StartsImage;
  }

  /** The run of images fills the line exactly when nothing but images is there. */
  lemma {:induction false} RunIs(t: string, images: seq<ParsedImage>)
    requires images != []
    ensures ImageRun(t) == (images, "") <==> ImagesOnly(t, images)
    decreases |t|
  {
    hide ParseImage, ImageAt, TrimStart, StartsImage, ImageRun;
    ImageIs(t, images[0]);
    RunUnfolds(t);
    if ParseImage(t) == Some(images[0]) {
      var rest, others := TrimStart(t[images[0].consumed..]), images[1..];
      assert images == [images[0]] + others;
      RunUnfolds(rest);
      if rest == "" {
        NoImageInNothing(others);
        if others == [] {
          assert images == [images[0]];
          OneImage(t, images);
        } else {
          assert [images[0]] != images;
        }
      } else if others != [] {
        RunIs(rest, others);
        ImageIs(rest, others[0]);
        if ParseImage(rest).Some? { ImageStarts(rest); }
      }
    }
  }

  lemma OneImage(t: string, images: seq<ParsedImage>)
    requires |images| == 1 && ImageAt(t, images[0]) && images[0].consumed <= |t|
    requires TrimStart(t[images[0].consumed..]) == ""
    ensures ImagesOnly(t, images)
  {
    hide ImageAt, TrimStart;
  }

  lemma NoImageInNothing(images: seq<ParsedImage>)
    ensures !ImagesOnly("", images)
  {
    hide Gives, Blank, TrimStart;
  }

  lemma ImageLineIs(t: string, images: seq<ParsedImage>)
    ensures ImageLine(t) == Some(images) <==> ImagesOnly(t, images)
  {
    hide ImageRun, ImageAt, ParseImage, StartsImage, TrimStart;
    if images != [] {
      RunIs(t, images);
      ImageIs(t, images[0]);
      RunUnfolds(t);
      if ParseImage(t).Some? { ImageStarts(t); }
      assert ImageRun(t) == (ImageRun(t).0, ImageRun(t).1);
    }
  }
}
