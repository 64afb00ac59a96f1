/**
 * The HTML preview of `generate_html.js`: the list and heading templates,
 * and the escape chain that turns the raw fragment into text shown
 * verbatim inside a code block (`&` first, then `<`, then `>`).
 */
module HtmlPreview {
  import opened FormRows

  /**
   * `s.replace(/pat/g, rep)` for a pattern without special characters:
   * every occurrence, scanning left to right, replaced without overlap.
   */
  function ReplaceAll(s: string, pat: string, rep: string): string
    requires pat != []
    decreases |s|
  {
    if |s| >= |pat| && s[..|pat|] == pat then rep + ReplaceAll(s[|pat|..], pat, rep)
    else if s == [] then []
    else [s[0]] + ReplaceAll(s[1..], pat, rep)
  }

  /** The escape chain applied to the raw fragment. */
  function Escape(s: string): (r: string)
    ensures '<' !in r && '>' !in r
    ensures '&' !in s && '<' !in s && '>' !in s ==> r == s
    ensures Unescape(r) == s
  {
    EscapeIsEncoded(s);
    EncodedHasNoBrackets(s);
    UnescapeEncoded(s);
    assert '&' !in s && '<' !in s && '>' !in s ==> Encoded(s, true, true) == s by {
      if '&' !in s && '<' !in s && '>' !in s { EncodedPlain(s); }
    }
    ReplaceAll(ReplaceAll(ReplaceAll(s, "&", "&amp;"), "<", "&lt;"), ">", "&gt;")
  }

  /** Reading the escaped text back: `&lt;`, then `&gt;`, then `&amp;`. */
  function Unescape(t: string): string {
    ReplaceAll(ReplaceAll(ReplaceAll(t, "&lt;", "<"), "&gt;", ">"), "&amp;", "&")
  }

  /** Distinct fragments escape to distinct texts. */
  lemma EscapeInjective(a: string, b: string)
    requires Escape(a) == Escape(b)
    ensures a == b
  {
    assert a == Unescape(Escape(a));
  }

  // ----- the escape chain, one character at a time -----

  /**
   * What one character of the raw text becomes when `&` is escaped and `<`
   * (when `lt`) and `>` (when `gt`) are escaped too.
   */
  function Chunk(c: char, lt: bool, gt: bool): string {
    if c == '&' then "&amp;"
    else if c == '<' && lt then "&lt;"
    else if c == '>' && gt then "&gt;"
    else [c]
  }

  /** The text after some of the escape steps (`Encoded(s, true, true)` after all three). */
  function Encoded(s: string, lt: bool, gt: bool): string {
    if s == [] then [] else Chunk(s[0], lt, gt) + Encoded(s[1..], lt, gt)
  }

  lemma {:induction false} ReplaceMissing(u: string, c: char, rep: string)
    requires c !in u
    ensures ReplaceAll(u, [c], rep) == u
  {
    if u != [] {
      assert u[0] in u;
      assert u[..1] != [c];
      ReplaceMissing(u[1..], c, rep);
    }
  }

  /** Replacing a one-character pattern distributes over concatenation. */
  lemma {:induction false} ReplaceCharConcat(u: string, x: string, c: char, rep: string)
    ensures ReplaceAll(u + x, [c], rep) == ReplaceAll(u, [c], rep) + ReplaceAll(x, [c], rep)
  {
    if u != [] {
      assert (u + x)[1..] == u[1..] + x;
      assert (u + x)[..1] == u[..1];
      ReplaceCharConcat(u[1..], x, c, rep);
    } else {
      assert u + x == x;
    }
  }

  /** Step one, `&` to `&amp;`. */
  lemma {:induction false} EscapeAmp(s: string)
    ensures ReplaceAll(s, "&", "&amp;") == Encoded(s, false, false)
  {
    if s != [] {
      EscapeAmp(s[1..]);
    }
  }

  /** Step two, `<` to `&lt;`. */
  lemma {:induction false} EscapeLt(s: string)
    ensures ReplaceAll(Encoded(s, false, false), "<", "&lt;") == Encoded(s, true, false)
  {
    if s != [] {
      var c := s[0];
      ReplaceCharConcat(Chunk(c, false, false), Encoded(s[1..], false, false), '<', "&lt;");
      if c != '<' { ReplaceMissing(Chunk(c, false, false), '<', "&lt;"); }
      EscapeLt(s[1..]);
    }
  }

  /** Step three, `>` to `&gt;`. */
  lemma {:induction false} EscapeGt(s: string)
    ensures ReplaceAll(Encoded(s, true, false), ">", "&gt;") == Encoded(s, true, true)
  {
    if s != [] {
      var c := s[0];
      ReplaceCharConcat(Chunk(c, true, false), Encoded(s[1..], true, false), '>', "&gt;");
      if c != '>' { ReplaceMissing(Chunk(c, true, false), '>', "&gt;"); }
      EscapeGt(s[1..]);
    }
  }

  lemma EscapeIsEncoded(s: string)
    ensures ReplaceAll(ReplaceAll(ReplaceAll(s, "&", "&amp;"), "<", "&lt;"), ">", "&gt;") == Encoded(s, true, true)
  {
    EscapeAmp(s);
    EscapeLt(s);
    EscapeGt(s);
  }

  lemma {:induction false} EncodedHasNoBrackets(s: string)
    ensures '<' !in Encoded(s, true, true) && '>' !in Encoded(s, true, true)
  {
    if s != [] {
      EncodedHasNoBrackets(s[1..]);
    }
  }

  lemma {:induction false} EncodedPlain(s: string)
    requires '&' !in s && '<' !in s && '>' !in s
    ensures Encoded(s, true, true) == s
  {
    if s != [] {
      EncodedPlain(s[1..]);
    }
  }

  // ----- decoding, one chunk at a time -----

  /** No occurrence of a `&`-pattern starts inside a text without `&`. */
  lemma {:induction false} PassThrough(u: string, x: string, pat: string, rep: string)
    requires pat != [] && pat[0] == '&' && '&' !in u
    ensures ReplaceAll(u + x, pat, rep) == u + ReplaceAll(x, pat, rep)
  {
    if u != [] {
      var t := u + x;
      assert t[0] == u[0] != '&';
      assert t[1..] == u[1..] + x;
      PassThrough(u[1..], x, pat, rep);
    } else {
      assert u + x == x;
    }
  }

  /** An entity that starts like the pattern but differs at its second character is kept. */
  lemma OtherEntity(tail: string, x: string, pat: string, rep: string)
    requires |pat| >= 2 && pat[0] == '&' && '&' !in tail
    requires tail != [] && tail[0] != pat[1]
    ensures ReplaceAll(['&'] + tail + x, pat, rep) == ['&'] + tail + ReplaceAll(x, pat, rep)
  {
    var t := ['&'] + tail + x;
    assert t[1] == tail[0];
    assert t[1..] == tail + x;
    PassThrough(tail, x, pat, rep);
  }

  /** An occurrence of the pattern is replaced. */
  lemma Matched(x: string, pat: string, rep: string)
    requires pat != []
    ensures ReplaceAll(pat + x, pat, rep) == rep + ReplaceAll(x, pat, rep)
  {
    assert (pat + x)[..|pat|] == pat;
    assert (pat + x)[|pat|..] == x;
  }

  /** Decoding step one, `&lt;` back to `<`. */
  lemma {:induction false} DecodeLt(s: string)
    ensures ReplaceAll(Encoded(s, true, true), "&lt;", "<") == Encoded(s, false, true)
  {
    if s != [] {
      var c, x := s[0], Encoded(s[1..], true, true);
      if c == '&' {
        OtherEntity("amp;", x, "&lt;", "<");
        assert "&amp;" == ['&'] + "amp;";
      } else if c == '<' {
        Matched(x, "&lt;", "<");
      } else if c == '>' {
        OtherEntity("gt;", x, "&lt;", "<");
        assert "&gt;" == ['&'] + "gt;";
      } else {
        PassThrough([c], x, "&lt;", "<");
      }
      DecodeLt(s[1..]);
    }
  }

  /** Decoding step two, `&gt;` back to `>`. */
  lemma {:induction false} DecodeGt(s: string)
    ensures ReplaceAll(Encoded(s, false, true), "&gt;", ">") == Encoded(s, false, false)
  {
    if s != [] {
      var c, x := s[0], Encoded(s[1..], false, true);
      if c == '&' {
        OtherEntity("amp;", x, "&gt;", ">");
        assert "&amp;" == ['&'] + "amp;";
      } else if c == '>' {
        Matched(x, "&gt;", ">");
      } else {
        PassThrough([c], x, "&gt;", ">");
      }
      DecodeGt(s[1..]);
    }
  }

  /** Decoding step three, `&amp;` back to `&`. */
  lemma {:induction false} DecodeAmp(s: string)
    ensures ReplaceAll(Encoded(s, false, false), "&amp;", "&") == s
  {
    if s != [] {
      var c, x := s[0], Encoded(s[1..], false, false);
      if c == '&' {
        Matched(x, "&amp;", "&");
      } else {
        PassThrough([c], x, "&amp;", "&");
      }
      DecodeAmp(s[1..]);
      assert s == [c] + s[1..];
    }
  }

  lemma UnescapeEncoded(s: string)
    ensures Unescape(Encoded(s, true, true)) == s
  {
    DecodeLt(s);
    DecodeGt(s);
    DecodeAmp(s);
  }

  // ----- escaping a page assembled from pieces -----

  lemma {:induction false} EncodedConcat(a: string, b: string)
    ensures Encoded(a + b, true, true) == Encoded(a, true, true) + Encoded(b, true, true)
  {
    if a != [] {
      assert (a + b)[0] == a[0];
      assert (a + b)[1..] == a[1..] + b;
      EncodedConcat(a[1..], b);
    } else {
      assert a + b == b;
    }
  }

  /** Escaping a page is escaping each of its pieces, in order. */
  lemma EscapeConcat(a: string, b: string)
    ensures Escape(a + b) == Escape(a) + Escape(b)
  {
    EscapeIsEncoded(a + b);
    EscapeIsEncoded(a);
    EscapeIsEncoded(b);
    EncodedConcat(a, b);
  }

  // ----- the heading and list templates -----

  /** The text of the `<h3>` heading; the initial and its `. ` appear only when given. */
  function Heading(first: string, middleInitial: string, preferred: string, last: string,
                   divider: string, adjective: string, animal: string): (r: string)
    ensures |r| > |first| + 1 && r[..|first| + 1] == first + " "
    ensures middleInitial == "" ==> r[|first| + 1] == '"'
  {
    first + " " + (if middleInitial != "" then middleInitial + ". " else "") +
    "\"" + preferred + "\" " + last + " " + divider + " " + adjective + " " + animal
  }

  /**
   * A non-empty initial is inserted, followed by `. `, right after the first
   * name and its space, into the heading without an initial.
   */
  lemma HeadingInitial(first: string, middleInitial: string, preferred: string, last: string,
                       divider: string, adjective: string, animal: string)
    ensures var plain := Heading(first, "", preferred, last, divider, adjective, animal);
            var h := Heading(first, middleInitial, preferred, last, divider, adjective, animal);
            middleInitial != "" ==> h == plain[..|first| + 1] + middleInitial + ". " + plain[|first| + 1..]
  {
    var lead := first + " ";
    var rest := "\"" + preferred + "\" " + last + " " + divider + " " + adjective + " " + animal;
    var plain := Heading(first, "", preferred, last, divider, adjective, animal);
    assert plain == lead + rest;
    assert plain[..|lead|] == lead && plain[|lead|..] == rest;
    if middleInitial != "" {
      assert Heading(first, middleInitial, preferred, last, divider, adjective, animal)
          == lead + (middleInitial + ". ") + rest;
    }
  }

  /** The heading ends with the divider, the mascot adjective and the mascot animal, each after a space. */
  lemma HeadingEnding(first: string, middleInitial: string, preferred: string, last: string,
                      divider: string, adjective: string, animal: string)
    ensures var h, tail := Heading(first, middleInitial, preferred, last, divider, adjective, animal),
                           " " + divider + " " + adjective + " " + animal;
            |h| > |tail| && h[|h| - |tail|..] == tail
  {
    var tail := " " + divider + " " + adjective + " " + animal;
    var head := first + " " + (if middleInitial != "" then middleInitial + ". " else "") + "\"" + preferred + "\" " + last;
    var h := Heading(first, middleInitial, preferred, last, divider, adjective, animal);
    assert h == head + tail;
    assert h[|head|..] == tail;
  }

  /** One `<li>` of the course list. */
  function CourseItem(c: Course): (r: string)
    ensures var p := "\n    <li>\n        <strong>" + c.department;
            |r| > |p| + 10 && r[..|p|] == p && r[|r| - 10..] == "\n    </li>"
  {
    "\n    <li>\n        <strong>" + c.department + " " + c.number + " - " + c.name + ":</strong> " +
    c.reason + "\n    </li>"
  }

  /** `courses.map(...).join('')`. */
  function CourseListItems(cs: seq<Course>): string {
    if cs == [] then "" else CourseItem(cs[0]) + CourseListItems(cs[1..])
  }

  /** The list of a sequence of courses is the lists of its parts, one after the other. */
  lemma {:induction false} CourseListItemsConcat(a: seq<Course>, b: seq<Course>)
    ensures CourseListItems(a + b) == CourseListItems(a) + CourseListItems(b)
  {
    if a != [] {
      var x := CourseItem(a[0]);
      assert (a + b)[0] == a[0];
      assert (a + b)[1..] == a[1..] + b;
      CourseListItemsConcat(a[1..], b);
      calc {
        CourseListItems(a + b);
        x + CourseListItems(a[1..] + b);
        x + (CourseListItems(a[1..]) + CourseListItems(b));
        (x + CourseListItems(a[1..])) + CourseListItems(b);
      }
    } else {
      assert a + b == b;
    }
  }

  /** Each course adds exactly its own item at the end of the list. */
  lemma CourseListItemsSnoc(cs: seq<Course>, c: Course)
    ensures CourseListItems(cs + [c]) == CourseListItems(cs) + CourseItem(c)
  {
    CourseListItemsConcat(cs, [c]);
    assert [c][1..] == [];
  }

  /** One `<li>` of the link list, opening in a new tab. */
  function LinkItem(l: Link): (r: string)
    ensures var p := "\n    <li>\n        <a href=\"" + l.href;
            |r| > |p| + 10 && r[..|p|] == p && r[|r| - 10..] == "\n    </li>"
  {
    "\n    <li>\n        <a href=\"" + l.href + "\" target=\"_blank\">" + l.name + "</a>\n    </li>"
  }

  /** `links.map(...).join('')`. */
  function LinkListItems(ls: seq<Link>): string {
    if ls == [] then "" else LinkItem(ls[0]) + LinkListItems(ls[1..])
  }

  lemma {:induction false} LinkListItemsConcat(a: seq<Link>, b: seq<Link>)
    ensures LinkListItems(a + b) == LinkListItems(a) + LinkListItems(b)
  {
    if a != [] {
      var x := LinkItem(a[0]);
      assert (a + b)[0] == a[0];
      assert (a + b)[1..] == a[1..] + b;
      LinkListItemsConcat(a[1..], b);
      calc {
        LinkListItems(a + b);
        x + LinkListItems(a[1..] + b);
        x + (LinkListItems(a[1..]) + LinkListItems(b));
        (x + LinkListItems(a[1..])) + LinkListItems(b);
      }
    } else {
      assert a + b == b;
    }
  }

  /** Each link adds exactly its own item at the end of the list. */
  lemma LinkListItemsSnoc(ls: seq<Link>, l: Link)
    ensures LinkListItems(ls + [l]) == LinkListItems(ls) + LinkItem(l)
  {
    LinkListItemsConcat(ls, [l]);
    assert [l][1..] == [];
  }
}
