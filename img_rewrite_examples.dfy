/** The rewrite on single tags and on a tag inside a paragraph, including
    the places where the pattern does something a reader of the tag might
    not expect: an `alt` written before the `src` is dropped, a later
    `…src="` attribute wins over `src`, and a `data-alt` attribute is read
    as the alt text. */
module ImgRewriteExamples {
  import opened Text
  import opened ImgRewrite
  import opened ImgRewriteProperties

  /** Text without an `s` holds no `src="`. */
  lemma NoSrcWithoutS(u: string)
    requires 's' !in u
    ensures NoSrcAttribute(u)
  {
    forall i: nat ensures !SrcOpenAt(u, i) {
      if i < |u| {
        assert u[i] in u;
      }
    }
  }

  lemma RewriteEmpty()
    ensures Rewrite("") == ""
  {
    assert Scan("") == End;
  }

  /** A lone tag becomes `![alt](src)`, backslashes in the src turned into
      slashes. */
  lemma OneTag(pre: string, src: string, post: string)
    requires '>' !in pre && '"' !in src && '>' !in post
    requires NoSrcAttribute(src + "\"" + post)
    ensures Rewrite(TagText(pre, src, post)) == ImageMarkdown(AltText(post), src)
  {
    RewriteEmpty();
    RewriteTextThenTag("", pre, src, post, "");
    EmptyAround(TagText(pre, src, post));
    EmptyAround(ImageMarkdown(AltText(post), src));
  }

  /** `<img alt="a" src="…">`: the alt is searched for only after the src,
      so the image comes out with an empty alt. */
  lemma AltBeforeSrcIsDropped(a: string, src: string)
    requires '"' !in a && '>' !in a && '"' !in src
    requires NoSrcAttribute(src + "\"")
    ensures Rewrite(TagText(" alt=\"" + a + "\" ", src, "")) == ImageMarkdown("", src)
  {
    assert src + "\"" + "" == src + "\"";
    OneTag(" alt=\"" + a + "\" ", src, "");
  }

  /** `<img src="x" data-src="y">`: the greedy `([^>]*)` gives back as
      little as it can, so the last `src="` in the tag is the one taken. */
  lemma LaterSrcWins(x: string, y: string, post: string)
    requires '"' !in x && '>' !in x && '"' !in y && '>' !in post
    requires NoSrcAttribute(y + "\"" + post)
    ensures Rewrite(TagText(" src=\"" + x + "\" data-", y, post)) == ImageMarkdown(AltText(post), y)
  {
    OneTag(" src=\"" + x + "\" data-", y, post);
  }

  /** `<img src="…" data-alt="a">`: `alt="` also matches inside `data-alt="`. */
  lemma DataAltIsAlt(src: string, a: string)
    requires '"' !in src && '"' !in a && '>' !in a
    requires NoSrcAttribute(src + "\" data-alt=\"" + a + "\"")
    ensures Rewrite(TagText(" ", src, " data-alt=\"" + a + "\"")) == ImageMarkdown(a, src)
  {
    var post := " data-alt=\"" + a + "\"";
    assert src + "\"" + post == src + "\" data-alt=\"" + a + "\"";
    OneTag(" ", src, post);
    DataAltText(a);
  }

  lemma DataAltText(a: string)
    requires '"' !in a
    ensures AltText(" data-alt=\"" + a + "\"") == a
  {
    var post := " data-alt=\"" + a + "\"";
    var j := 11 + |a|;
    assert post[..11] == " data-alt=\"" && post[11..j] == a && post[j] == '"';
    LacksFromSlice(post, 11, j, '"');
    assert IsAltAt(post, 6, j);
    forall i': nat, j': nat | IsAltAt(post, i', j') ensures 6 <= i' {
    }
  }

  /** A text with no `s` in it, in particular an `<img>` without a `src`,
      is left as it is. */
  lemma NoSrcUnchanged(s: string)
    requires 's' !in s
    ensures Rewrite(s) == s
  {
    NoSrcWithoutS(s);
    RewriteNeedsImgAndSrc(s);
  }

  /** `<p>` holds no `<img`. */
  lemma ParagraphOpenNoImg()
    ensures forall i: nat :: !ImgOpenAt("<p>", i)
  {
  }

  /** `</p>` holds no `<img` and so comes out as it is. */
  lemma ParagraphCloseUnchanged()
    ensures Rewrite("</p>") == "</p>"
  {
    assert forall i: nat :: !ImgOpenAt("</p>", i);
    RewriteNeedsImgAndSrc("</p>");
  }

  /** An image in a paragraph, as React renders an MDX image: the
      paragraph's tags stay around the Markdown image. */
  lemma ImageInParagraph(pre: string, src: string, post: string)
    requires '>' !in pre && '"' !in src && '>' !in post
    requires NoSrcAttribute(src + "\"" + post)
    ensures Rewrite("<p>" + TagText(pre, src, post) + "</p>") == "<p>" + ImageMarkdown(AltText(post), src) + "</p>"
  {
    ParagraphOpenNoImg();
    ParagraphCloseUnchanged();
    RewriteTextThenTag("<p>", pre, src, post, "</p>");
  }
}
