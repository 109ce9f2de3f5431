/** The JavaScript built-ins the search component relies on: the string
    methods `toLowerCase` (restricted to ASCII) and `replace` with a string pattern,
    `Array.prototype.join`, and literal substring search. */
module Text {

  /** Lower-case one character; only 'A'..'Z' change. */
  function LowerChar(c: char): (d: char)
    ensures !('A' <= d <= 'Z')
    ensures !('A' <= c <= 'Z') ==> d == c
  {
    if 'A' <= c <= 'Z' then (c as int - 'A' as int + 'a' as int) as char else c
  }

  /** No character of `s` is an upper-case letter. */
  predicate IsLower(s: string)
  {
    forall i :: 0 <= i < |s| ==> !('A' <= s[i] <= 'Z')
  }

  /** `s.toLowerCase()`: maps every character by LowerChar and keeps the length. */
  function Lower(s: string): (r: string)
    ensures |r| == |s|
    ensures forall i :: 0 <= i < |s| ==> r[i] == LowerChar(s[i])
    ensures IsLower(r)
  {
    if s == [] then [] else [LowerChar(s[0])] + Lower(s[1..])
  }

  /** A string already in lower case is its own lower-case form. */
  lemma LowerOfLower(s: string)
    requires IsLower(s)
    ensures Lower(s) == s
  {
    assert forall i :: 0 <= i < |s| ==> Lower(s)[i] == s[i];
  }

  /** Lower-casing twice is lower-casing once. */
  lemma LowerIdempotent(s: string)
    ensures Lower(Lower(s)) == Lower(s)
  {
    LowerOfLower(Lower(s));
  }

  /** Lower-casing distributes over concatenation. */
  lemma LowerAppend(a: string, b: string)
    ensures Lower(a + b) == Lower(a) + Lower(b)
  {
    assert forall i :: 0 <= i < |a + b| ==> Lower(a + b)[i] == (Lower(a) + Lower(b))[i];
  }

  /** `s.indexOf(c)`: the first position holding `c`, or -1 when there is none. */
  function IndexOf(s: string, c: char): (k: int)
    ensures -1 <= k < |s|
    ensures k == -1 <==> c !in s
    ensures 0 <= k ==> s[k] == c && c !in s[..k]
  {
    if s == [] then -1
    else if s[0] == c then 0
    else
      var j := IndexOf(s[1..], c);
      if j == -1 then -1
      else
        assert s[..j + 1] == [s[0]] + s[1..][..j];
        j + 1
  }

  /** `s.replace(c, "")` with a one-character string pattern: only the FIRST
      occurrence of `c` is removed, and nothing happens when there is none. */
  function ReplaceFirst(s: string, c: char): (r: string)
    ensures c !in s ==> r == s
    ensures c in s ==> |r| == |s| - 1
    ensures c in s ==> exists k :: 0 <= k < |s| && s[k] == c && c !in s[..k] && r == s[..k] + s[k + 1..]
  {
    var k := IndexOf(s, c);
    if k < 0 then s else s[..k] + s[k + 1..]
  }

  /** `xs.join(sep)`: the elements in order with `sep` between neighbours. */
  function Join(xs: seq<string>, sep: string): (r: string)
    ensures xs == [] ==> r == ""
    ensures |xs| == 1 ==> r == xs[0]
  {
    if xs == [] then "" else if |xs| == 1 then xs[0] else xs[0] + sep + Join(xs[1..], sep)
  }

  /** `pat` stands in `text` starting at position `i`. */
  ghost predicate OccursAt(pat: string, text: string, i: int)
  {
    0 <= i <= |text| - |pat| && text[i..i + |pat|] == pat
  }

  /** `pat` occurs in `text` at some position (specification of substring search). */
  ghost predicate Occurs(pat: string, text: string)
  {
    exists i :: OccursAt(pat, text, i)
  }

  /** When `pat` is not a prefix of a non-empty `text`, it occurs in `text`
      exactly when it occurs in `text` without its first character. */
  lemma OccursShift(pat: string, text: string)
    requires text != [] && !(|pat| <= |text| && text[..|pat|] == pat)
    ensures Occurs(pat, text) <==> Occurs(pat, text[1..])
  {
    if Occurs(pat, text[1..]) {
      var i :| OccursAt(pat, text[1..], i);
      assert text[i + 1..i + 1 + |pat|] == text[1..][i..i + |pat|];
      assert OccursAt(pat, text, i + 1);
    }
    if Occurs(pat, text) {
      var i :| OccursAt(pat, text, i);
      assert i != 0 && text[1..][i - 1..i - 1 + |pat|] == text[i..i + |pat|];
      assert OccursAt(pat, text[1..], i - 1);
    }
  }

  /** Literal substring search, scanning the start positions from left to
      right: it succeeds exactly when `pat` occurs in `text`. */
  function Contains(text: string, pat: string): (b: bool)
    ensures b <==> Occurs(pat, text)
  {
    if |pat| <= |text| && text[..|pat|] == pat then
      assert OccursAt(pat, text, 0);
      true
    else if text == [] then
      assert forall i :: !OccursAt(pat, text, i);
      false
    else
      OccursShift(pat, text);
      Contains(text[1..], pat)
  }

  /** An occurrence inside a piece is an occurrence in any string built around it. */
  lemma OccursInside(pat: string, pre: string, mid: string, post: string)
    requires Occurs(pat, mid)
    ensures Occurs(pat, pre + mid + post)
  {
    var i :| OccursAt(pat, mid, i);
    var whole := pre + mid + post;
    assert whole[|pre| + i..|pre| + i + |pat|] == mid[i..i + |pat|];
    assert OccursAt(pat, whole, |pre| + i);
  }

  /** Every element of a joined list stands in the joined string. */
  lemma {:induction false} JoinHasElement(xs: seq<string>, sep: string, k: nat)
    requires k < |xs|
    ensures exists pre, post :: Join(xs, sep) == pre + xs[k] + post
  {
    if |xs| == 1 {
      assert Join(xs, sep) == "" + xs[0] + "";
    } else if k == 0 {
      assert Join(xs, sep) == "" + xs[0] + (sep + Join(xs[1..], sep));
    } else {
      JoinHasElement(xs[1..], sep, k - 1);
      var pre, post :| Join(xs[1..], sep) == pre + xs[1..][k - 1] + post;
      assert Join(xs, sep) == (xs[0] + sep + pre) + xs[k] + post;
    }
  }

  /** Joining two non-empty lists is joining each and putting `sep` between. */
  lemma {:induction false} JoinAppend(xs: seq<string>, ys: seq<string>, sep: string)
    requires xs != [] && ys != []
    ensures Join(xs + ys, sep) == Join(xs, sep) + sep + Join(ys, sep)
  {
    if |xs| == 1 {
      assert (xs + ys)[1..] == ys;
    } else {
      JoinAppend(xs[1..], ys, sep);
      assert (xs + ys)[1..] == xs[1..] + ys;
    }
  }

  /** A pattern found in one element (case-insensitively) is found in the
      lower-cased joined string. */
  lemma OccursInJoin(pat: string, xs: seq<string>, sep: string, k: nat)
    requires k < |xs| && Occurs(pat, Lower(xs[k]))
    ensures Occurs(pat, Lower(Join(xs, sep)))
  {
    JoinHasElement(xs, sep, k);
    var pre, post :| Join(xs, sep) == pre + xs[k] + post;
    LowerAppend(pre + xs[k], post);
    LowerAppend(pre, xs[k]);
    OccursInside(pat, Lower(pre), Lower(xs[k]), Lower(post));
  }
}
