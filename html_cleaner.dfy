/**
 * The two regular-expression cleaners of HtmlCleaner that remove markup
 * from a page's text: `stripTags` (pattern `<[^><]+>`) and `stripComments`
 * (pattern `<!--.*?-->` with dot matching newlines). `String.replaceAll`
 * scans left to right, removes each match and resumes after it; where no
 * match starts, one character is kept and the scan moves on. Both cleaners
 * are written here as that scan.
 */
module HtmlCleaner {
  import opened Wrappers

  /** `r` can be obtained from `s` by deleting characters. */
  predicate Subsequence(r: string, s: string)
    decreases |s|
  {
    if r == [] then true
    else if s == [] then false
    else if r[0] == s[0] then Subsequence(r[1..], s[1..])
    else Subsequence(r, s[1..])
  }

  /** Deleting the first character of the text keeps a subsequence one. */
  lemma {:induction false} SubsequenceDropOne(r: string, s: string)
    requires s != [] && Subsequence(r, s[1..])
    ensures Subsequence(r, s)
    decreases |s|, 0
  {
    if r != [] && r[0] == s[0] {
      SubsequenceWeaken(r, s[1..]);
    }
  }

  /** Deleting the first character of a subsequence keeps it one. */
  lemma {:induction false} SubsequenceWeaken(r: string, s: string)
    requires r != [] && Subsequence(r, s)
    ensures Subsequence(r[1..], s)
    decreases |s|, 1
  {
    if r[0] != s[0] {
      SubsequenceWeaken(r, s[1..]);
    }
    SubsequenceDropOne(r[1..], s);
  }

  /** A subsequence of a suffix is a subsequence of the whole text. */
  lemma {:induction false} SubsequenceDrop(r: string, s: string, k: nat)
    requires k <= |s| && Subsequence(r, s[k..])
    ensures Subsequence(r, s)
    decreases k
  {
    if k > 0 {
      assert s[1..][k - 1..] == s[k..];
      SubsequenceDrop(r, s[1..], k - 1);
      SubsequenceDropOne(r, s);
    }
  }

  /* ---------------------------------------------------------------- tags */

  predicate IsAngle(c: char) {
    c == '<' || c == '>'
  }

  /**
   * A tag starts at `i`: a `<`, a non-empty run of characters that are
   * neither `<` nor `>`, and a `>` at `j`.
   */
  predicate TagAt(s: string, i: int) {
    0 <= i < |s| && s[i] == '<' &&
    exists j :: i + 1 < j < |s| && s[j] == '>' && NoAngleBetween(s, i + 1, j)
  }

  predicate NoAngleBetween(s: string, from: int, to: int)
    requires 0 <= from <= to <= |s|
  {
    forall k :: from <= k < to ==> !IsAngle(s[k])
  }

  /** The first `<` or `>` at or after `from`. */
  function NextAngle(s: string, from: nat): (r: Option<nat>)
    requires from <= |s|
    ensures r.Some? ==> from <= r.value < |s| && IsAngle(s[r.value]) && NoAngleBetween(s, from, r.value)
    ensures r.None? ==> NoAngleBetween(s, from, |s|)
    decreases |s| - from
  {
    if from == |s| then None
    else if IsAngle(s[from]) then Some(from)
    else NextAngle(s, from + 1)
  }

  /** The end of the tag that starts the text, if one does: the index of its `>`. */
  function TagEnd(s: string): (r: Option<nat>)
    ensures r.Some? ==> TagAt(s, 0) && 1 < r.value < |s| && s[r.value] == '>'
  {
    if s == [] || s[0] != '<' then None
    else
      var stop := NextAngle(s, 1);
      if stop.Some? && stop.value > 1 && s[stop.value] == '>' then Some(stop.value)
      else None
  }

  /** The scan finds the first `<` or `>` that the text has. */
  lemma {:induction false} NextAngleFinds(s: string, from: nat, j: int)
    requires from <= j < |s| && IsAngle(s[j]) && NoAngleBetween(s, from, j)
    ensures NextAngle(s, from) == Some(j)
    decreases j - from
  {
    if from < j {
      NextAngleFinds(s, from + 1, j);
    }
  }

  /** A tag starts the text exactly when the scan finds one there. */
  lemma TagEndFinds(s: string)
    ensures TagEnd(s).Some? <==> TagAt(s, 0)
  {
    if TagAt(s, 0) {
      var j :| 1 < j < |s| && s[j] == '>' && NoAngleBetween(s, 1, j);
      NextAngleFinds(s, 1, j);
    }
  }

  /** `stripTags`: every tag removed, scanning left to right. */
  function StripTags(s: string): (r: string)
    ensures Subsequence(r, s)
    ensures |r| <= |s|
    decreases |s|
  {
    if s == [] then []
    else
      match TagEnd(s)
      case Some(j) =>
        var rest := StripTags(s[j + 1..]);
        SubsequenceDrop(rest, s, j + 1);
        rest
      case None =>
        var rest := StripTags(s[1..]);
        assert ([s[0]] + rest)[1..] == rest;
        [s[0]] + rest
  }

  /** A tag in the text after its first character is a tag of the whole text. */
  lemma TagShift(s: string, i: int)
    requires s != [] && TagAt(s[1..], i)
    ensures TagAt(s, i + 1)
  {
    var t := s[1..];
    var j :| i + 1 < j < |t| && t[j] == '>' && NoAngleBetween(t, i + 1, j);
    assert s[j + 1] == '>' && NoAngleBetween(s, i + 2, j + 1);
  }

  /** A tag that appears in the text makes the result shorter. */
  lemma {:induction false} TagShrinks(s: string, i: int)
    requires TagAt(s, i)
    ensures |StripTags(s)| < |s|
    decreases |s|
  {
    TagEndFinds(s);
    if TagEnd(s).None? {
      assert i > 0;
      var j :| i + 1 < j < |s| && s[j] == '>' && NoAngleBetween(s, i + 1, j);
      var t := s[1..];
      assert t[j - 1] == '>' && NoAngleBetween(t, i, j - 1);
      assert TagAt(t, i - 1);
      TagShrinks(t, i - 1);
    }
  }

  /** When the result differs from the text, the text holds a tag. */
  lemma {:induction false} ChangedHasTag(s: string)
    ensures StripTags(s) != s ==> exists i :: TagAt(s, i)
    decreases |s|
  {
    if s != [] {
      TagEndFinds(s);
      if TagEnd(s).None? {
        var t := s[1..];
        ChangedHasTag(t);
        if StripTags(t) != t {
          var i :| TagAt(t, i);
          TagShift(s, i);
        } else {
          assert StripTags(s) == [s[0]] + t == s;
        }
      } else {
        assert TagAt(s, 0);
      }
    }
  }

  /** `stripTags` changes the text exactly when a tag appears in it. */
  lemma StripTagsUnchanged(s: string)
    ensures StripTags(s) == s <==> forall i :: !TagAt(s, i)
  {
    ChangedHasTag(s);
    if exists i :: TagAt(s, i) {
      var i :| TagAt(s, i);
      TagShrinks(s, i);
    }
  }

  /** Text with no `<` has no tag, so it comes back unchanged. */
  lemma NoOpenAngleUnchanged(s: string)
    requires forall k :: 0 <= k < |s| ==> s[k] != '<'
    ensures StripTags(s) == s
  {
    ChangedHasTag(s);
  }

  /** The documented example: `A<b>B</b>C` becomes `ABC`. */
  lemma StripTagsExample()
    ensures StripTags("A<b>B</b>C") == "ABC"
  {
    StripTagsOpeningExample();
    StripTagsKeeps("A<b>B</b>C");
    assert "A<b>B</b>C"[1..] == "<b>B</b>C";
  }

  /** The opening tag goes: `<b>B</b>C` becomes `BC`. */
  lemma StripTagsOpeningExample()
    ensures StripTags("<b>B</b>C") == "BC"
  {
    StripTagsClosingExample();
    StripTagsKeeps("B</b>C");
    assert "B</b>C"[1..] == "</b>C";
    StripTagsDrops("<b>B</b>C", 2);
    assert "<b>B</b>C"[3..] == "B</b>C";
  }

  /** The closing tag goes as well: `</b>C` becomes `C`. */
  lemma StripTagsClosingExample()
    ensures StripTags("</b>C") == "C"
  {
    StripTagsKeeps("C");
    assert "C"[1..] == [];
    StripTagsDrops("</b>C", 3);
    assert "</b>C"[4..] == "C";
  }

  /** A text that does not start with `<` keeps its first character. */
  lemma StripTagsKeeps(s: string)
    requires s != [] && s[0] != '<'
    ensures StripTags(s) == [s[0]] + StripTags(s[1..])
  {
  }

  /** A text that starts with a tag ending at `j` loses that tag. */
  lemma StripTagsDrops(s: string, j: nat)
    requires 1 < j < |s| && s[0] == '<' && s[j] == '>' && NoAngleBetween(s, 1, j)
    ensures StripTags(s) == StripTags(s[j + 1..])
  {
    NextAngleFinds(s, 1, j);
  }

  /** Removing tags can expose a new one: `<<b>a>` becomes `<a>`, which becomes empty. */
  lemma StripTagsNotIdempotent()
    ensures StripTags("<<b>a>") == "<a>"
    ensures StripTags("<a>") == ""
  {
    var s := "<<b>a>";
    assert NextAngle(s, 1) == Some(1);
    assert TagEnd(s).None?;
    assert s[1..] == "<b>a>";
    assert NextAngle("<b>a>", 1) == NextAngle("<b>a>", 2) == Some(2);
    assert "<b>a>"[3..] == "a>";
    assert TagEnd("a>").None?;
    assert "a>"[1..] == ">";
    assert TagEnd(">").None?;
    assert ">"[1..] == [];
    assert NextAngle("<a>", 1) == NextAngle("<a>", 2) == Some(2);
    assert "<a>"[3..] == [];
  }

  /* ------------------------------------------------------------ comments */

  /** `<!--` starts at `i`. */
  predicate OpenAt(s: string, i: int) {
    0 <= i && i + 4 <= |s| && s[i] == '<' && s[i + 1] == '!' && s[i + 2] == '-' && s[i + 3] == '-'
  }

  /** `-->` starts at `j`. */
  predicate CloseAt(s: string, j: int) {
    0 <= j && j + 3 <= |s| && s[j] == '-' && s[j + 1] == '-' && s[j + 2] == '>'
  }

  /** A comment starts at `i`: an opening `<!--` with a `-->` somewhere after it. */
  predicate CommentAt(s: string, i: int) {
    OpenAt(s, i) && exists j :: i + 4 <= j <= |s| - 3 && CloseAt(s, j)
  }

  /** The nearest `-->` at or after `from` (the lazy `.*?`). */
  function NextClose(s: string, from: nat): (r: Option<nat>)
    requires from <= |s|
    ensures r.Some? ==> from <= r.value && CloseAt(s, r.value) && forall j :: from <= j < r.value ==> !CloseAt(s, j)
    ensures r.None? ==> forall j :: from <= j ==> !CloseAt(s, j)
    decreases |s| - from
  {
    if from + 3 > |s| then None
    else if CloseAt(s, from) then Some(from)
    else NextClose(s, from + 1)
  }

  /** The end of the comment that starts the text, if one does: just past its `-->`. */
  function CommentEnd(s: string): (r: Option<nat>)
    ensures r.Some? ==> CommentAt(s, 0) && 7 <= r.value <= |s| && CloseAt(s, r.value - 3)
  {
    if !OpenAt(s, 0) then None
    else
      match NextClose(s, 4)
      case Some(j) => Some(j + 3)
      case None => None
  }

  /** The scan finds the nearest `-->` that the text has. */
  lemma {:induction false} NextCloseFinds(s: string, from: nat, j: int)
    requires from <= j && CloseAt(s, j)
    ensures NextClose(s, from).Some?
    decreases j - from
  {
    if from < j && !CloseAt(s, from) {
      NextCloseFinds(s, from + 1, j);
    }
  }

  /** A comment starts the text exactly when the scan finds one there. */
  lemma CommentEndFinds(s: string)
    ensures CommentEnd(s).Some? <==> CommentAt(s, 0)
  {
    if CommentAt(s, 0) {
      var j :| 4 <= j <= |s| - 3 && CloseAt(s, j);
      NextCloseFinds(s, 4, j);
    }
  }

  /** `stripComments`: every comment removed, up to its nearest closing, scanning left to right. */
  function StripComments(s: string): (r: string)
    ensures Subsequence(r, s)
    ensures |r| <= |s|
    decreases |s|
  {
    if s == [] then []
    else
      match CommentEnd(s)
      case Some(e) =>
        var rest := StripComments(s[e..]);
        SubsequenceDrop(rest, s, e);
        rest
      case None =>
        var rest := StripComments(s[1..]);
        assert ([s[0]] + rest)[1..] == rest;
        [s[0]] + rest
  }

  /** A comment in the text after its first character is a comment of the whole text. */
  lemma CommentShift(s: string, i: int)
    requires s != [] && CommentAt(s[1..], i)
    ensures CommentAt(s, i + 1)
  {
    var t := s[1..];
    var j :| i + 4 <= j <= |t| - 3 && CloseAt(t, j);
    assert CloseAt(s, j + 1);
  }

  /** A comment that appears in the text makes the result shorter. */
  lemma {:induction false} CommentShrinks(s: string, i: int)
    requires CommentAt(s, i)
    ensures |StripComments(s)| < |s|
    decreases |s|
  {
    CommentEndFinds(s);
    if CommentEnd(s).None? {
      assert i > 0;
      var j :| i + 4 <= j <= |s| - 3 && CloseAt(s, j);
      var t := s[1..];
      assert CloseAt(t, j - 1);
      assert CommentAt(t, i - 1);
      CommentShrinks(t, i - 1);
    }
  }

  /** When the result differs from the text, the text holds a comment. */
  lemma {:induction false} ChangedHasComment(s: string)
    ensures StripComments(s) != s ==> exists i :: CommentAt(s, i)
    decreases |s|
  {
    if s != [] {
      CommentEndFinds(s);
      if CommentEnd(s).None? {
        var t := s[1..];
        ChangedHasComment(t);
        if StripComments(t) != t {
          var i :| CommentAt(t, i);
          CommentShift(s, i);
        } else {
          assert StripComments(s) == [s[0]] + t == s;
        }
      } else {
        assert CommentAt(s, 0);
      }
    }
  }

  /** `stripComments` changes the text exactly when a comment appears in it. */
  lemma StripCommentsUnchanged(s: string)
    ensures StripComments(s) == s <==> forall i :: !CommentAt(s, i)
  {
    ChangedHasComment(s);
    if exists i :: CommentAt(s, i) {
      var i :| CommentAt(s, i);
      CommentShrinks(s, i);
    }
  }

  /** An opening `<!--` that is never closed stays in the text, as does text with no `<!--`. */
  lemma UnterminatedUnchanged(s: string)
    requires (forall j :: !CloseAt(s, j)) || (forall i :: !OpenAt(s, i))
    ensures StripComments(s) == s
  {
    ChangedHasComment(s);
  }

  /** The documented example on one line: `A<!-- B -->C` becomes `AC`. */
  lemma StripCommentsExample()
    ensures StripComments("A<!-- B -->C") == "AC"
  {
    var s := "A<!-- B -->C";
    assert !OpenAt(s, 0) && s[1..] == "<!-- B -->C";
    var t := s[1..];
    assert NextClose(t, 4) == NextClose(t, 5) == NextClose(t, 6) == NextClose(t, 7) == Some(7);
    assert CommentEnd(t) == Some(10);
    assert t[10..] == "C";
    assert !OpenAt("C", 0) && "C"[1..] == [];
    assert StripComments("C") == "C";
    assert StripComments(t) == "C";
  }

  /** The documented example across a newline: the comment `<!--` newline `B -->` goes as a whole. */
  lemma StripCommentsNewlineExample()
    ensures StripComments("A<!--\nB -->C") == "AC"
  {
    var s := "A<!--\nB -->C";
    assert !OpenAt(s, 0) && s[1..] == "<!--\nB -->C";
    var t := s[1..];
    assert NextClose(t, 4) == NextClose(t, 5) == NextClose(t, 6) == NextClose(t, 7) == Some(7);
    assert CommentEnd(t) == Some(10);
    assert t[10..] == "C";
    assert !OpenAt("C", 0) && "C"[1..] == [];
    assert StripComments("C") == "C";
    assert StripComments(t) == "C";
  }

  /** The match is lazy: a comment ends at its nearest `-->`, and a later one stays in the text. */
  lemma StripCommentsLazy()
    ensures StripComments("<!--x-->B-->") == "B-->"
  {
    StripCommentsArrowExample();
    var s := "<!--x-->B-->";
    assert !CloseAt(s, 4) && CloseAt(s, 5);
    StripCommentsDrops(s, 5);
    assert s[8..] == "B-->";
  }

  /** A `-->` without an opening `<!--` stays: `B-->` is unchanged. */
  lemma StripCommentsArrowExample()
    ensures StripComments("B-->") == "B-->"
  {
    StripCommentsKeeps(">");
    assert ">"[1..] == [];
    StripCommentsKeeps("->");
    assert "->"[1..] == ">";
    StripCommentsKeeps("-->");
    assert "-->"[1..] == "->";
    StripCommentsKeeps("B-->");
    assert "B-->"[1..] == "-->";
  }

  /** A text that does not start with `<!--` keeps its first character. */
  lemma StripCommentsKeeps(s: string)
    requires s != [] && s[0] != '<'
    ensures StripComments(s) == [s[0]] + StripComments(s[1..])
  {
  }

  /** A text that starts with `<!--` whose nearest `-->` is at `j` loses the comment. */
  lemma StripCommentsDrops(s: string, j: nat)
    requires OpenAt(s, 0) && 4 <= j && CloseAt(s, j) && forall k | 4 <= k < j :: !CloseAt(s, k)
    ensures StripComments(s) == StripComments(s[j + 3..])
  {
    NextCloseAt(s, 4, j);
  }

  /** The scan stops at the first `-->` from where it starts. */
  lemma {:induction false} NextCloseAt(s: string, from: nat, j: nat)
    requires from <= j && CloseAt(s, j) && forall k | from <= k < j :: !CloseAt(s, k)
    ensures NextClose(s, from) == Some(j)
    decreases j - from
  {
    if from < j {
      NextCloseAt(s, from + 1, j);
    }
  }
}
