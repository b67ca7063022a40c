/**
 * The string operations the page controller relies on: PHP's `explode`,
 * a simplified `strip_tags`, and the lazy bracket match of
 * `preg_match('#\((.*?)\)#', ...)`.
 */
module Text {
  import opened Values

  /** `pat` occurs in `s` starting at index `i`. */
  predicate OccursAt(s: string, pat: string, i: int) {
    0 <= i && i + |pat| <= |s| && s[i..i + |pat|] == pat
  }

  predicate Contains(s: string, pat: string) {
    exists j :: 0 <= j <= |s| && OccursAt(s, pat, j)
  }

  /** The leftmost occurrence of `pat` in `s` at or after `from` (`strpos`). */
  function FindFrom(s: string, pat: string, from: nat): (r: Option<nat>)
    ensures r.Some? ==> from <= r.value && OccursAt(s, pat, r.value)
    ensures r.Some? ==> forall j :: from <= j < r.value ==> !OccursAt(s, pat, j)
    ensures r.None? ==> forall j :: from <= j ==> !OccursAt(s, pat, j)
    decreases |s| - from
  {
    if from + |pat| > |s| then None
    else if s[from..from + |pat|] == pat then Some(from)
    else FindFrom(s, pat, from + 1)
  }

  /** The search result is determined by the occurrences it reports. */
  lemma FindFromFinds(s: string, pat: string, from: nat, i: nat)
    requires from <= i && OccursAt(s, pat, i)
    requires forall j :: from <= j < i ==> !OccursAt(s, pat, j)
    ensures FindFrom(s, pat, from) == Some(i)
  {
  }

  /** Searching a suffix is searching the whole string further on. */
  lemma {:induction false} FindFromSuffix(s: string, pat: string, k: nat, from: nat)
    requires k <= |s|
    ensures FindFrom(s[k..], pat, from) ==
      match FindFrom(s, pat, k + from)
      case None => None
      case Some(j) => Some(j - k)
    decreases |s| - k - from
  {
    if k + from + |pat| <= |s| {
      assert s[k..][from..from + |pat|] == s[k + from..k + from + |pat|];
      if s[k + from..k + from + |pat|] != pat {
        FindFromSuffix(s, pat, k, from + 1);
      }
    }
  }

  /** PHP `explode($sep, $s)`; PHP refuses an empty separator. */
  function Explode(sep: string, s: string): (parts: seq<string>)
    requires |sep| > 0
    ensures |parts| >= 1
    decreases |s|
  {
    match FindFrom(s, sep, 0)
    case None => [s]
    case Some(i) => [s[..i]] + Explode(sep, s[i + |sep|..])
  }

  /** No piece of `explode` contains the separator. */
  lemma {:induction false} ExplodePiecesAvoidSeparator(sep: string, s: string, k: nat)
    requires |sep| > 0
    requires k < |Explode(sep, s)|
    ensures !Contains(Explode(sep, s)[k], sep)
    decreases |s|
  {
    match FindFrom(s, sep, 0)
    case None =>
    case Some(i) =>
      var rest := s[i + |sep|..];
      assert Explode(sep, s) == [s[..i]] + Explode(sep, rest);
      if k == 0 {
        forall j | OccursAt(s[..i], sep, j) ensures false {
          assert s[..i][j..j + |sep|] == s[j..j + |sep|];
          assert OccursAt(s, sep, j);
        }
      } else {
        ExplodePiecesAvoidSeparator(sep, rest, k - 1);
      }
  }

  lemma ExplodeOfNoOccurrence(sep: string, s: string)
    requires |sep| > 0
    ensures FindFrom(s, sep, 0).None? ==> Explode(sep, s) == [s]
    ensures FindFrom(s, sep, 0).Some? ==>
      var i := FindFrom(s, sep, 0).value;
      Explode(sep, s) == [s[..i]] + Explode(sep, s[i + |sep|..])
  {
  }

  /** PHP `implode($sep, $parts)`. */
  function Implode(sep: string, parts: seq<string>): string {
    if |parts| == 0 then ""
    else if |parts| == 1 then parts[0]
    else parts[0] + sep + Implode(sep, parts[1..])
  }

  /** Joining the pieces back with the separator gives the original text. */
  lemma {:induction false} ImplodeExplode(sep: string, s: string)
    requires |sep| > 0
    ensures Implode(sep, Explode(sep, s)) == s
    decreases |s|
  {
    ExplodeOfNoOccurrence(sep, s);
    match FindFrom(s, sep, 0)
    case None =>
    case Some(i) =>
      var rest := s[i + |sep|..];
      ImplodeExplode(sep, rest);
      ImplodeCons(sep, s[..i], Explode(sep, rest));
      assert s[i..i + |sep|] == sep;
      SplitThree(s, i, i + |sep|);
  }

  lemma SplitThree(s: string, i: nat, j: nat)
    requires i <= j <= |s|
    ensures s == s[..i] + s[i..j] + s[j..]
  {
    assert s == s[..i] + s[i..];
    assert s[i..] == s[i..j] + s[j..];
  }

  lemma ImplodeCons(sep: string, head: string, tail: seq<string>)
    requires |tail| >= 1
    ensures Implode(sep, [head] + tail) == head + sep + Implode(sep, tail)
  {
    assert ([head] + tail)[1..] == tail;
  }

  /** The text from `from` up to the next separator, or to the end. */
  function PieceFrom(s: string, sep: string, from: nat): string
    requires from <= |s|
  {
    match FindFrom(s, sep, from)
    case None => s[from..]
    case Some(j) => s[from..j]
  }

  /**
   * When the separator occurs, the first piece is the text before its first
   * occurrence and the second the text up to the next one, or to the end.
   * (Without an occurrence the only piece is the text: `ExplodeOfNoOccurrence`.)
   */
  lemma ExplodeFirstTwo(sep: string, s: string, i: nat)
    requires |sep| > 0
    requires FindFrom(s, sep, 0) == Some(i)
    ensures |Explode(sep, s)| >= 2
    ensures Explode(sep, s)[0] == s[..i]
    ensures Explode(sep, s)[1] == PieceFrom(s, sep, i + |sep|)
  {
    var rest := s[i + |sep|..];
    var tail := Explode(sep, rest);
    ExplodeOfNoOccurrence(sep, s);
    assert Explode(sep, s) == [s[..i]] + tail;
    ExplodeSecond(sep, s, i, rest);
  }

  lemma ExplodeSecond(sep: string, s: string, i: nat, rest: string)
    requires |sep| > 0
    requires FindFrom(s, sep, 0) == Some(i)
    requires rest == s[i + |sep|..]
    ensures Explode(sep, rest)[0] == PieceFrom(s, sep, i + |sep|)
  {
    ExplodeHead(sep, rest);
    FindFromSuffix(s, sep, i + |sep|, 0);
    var second := FindFrom(s, sep, i + |sep|);
    if second.Some? {
      assert rest[..second.value - (i + |sep|)] == s[i + |sep|..second.value];
    }
  }

  /** The first piece runs up to the first separator, or to the end. */
  lemma ExplodeHead(sep: string, s: string)
    requires |sep| > 0
    ensures Explode(sep, s)[0] == PieceFrom(s, sep, 0)
  {
    ExplodeOfNoOccurrence(sep, s);
  }

  /**
   * A simplified `strip_tags`: every span from `<` to the next `>` is
   * removed; an unclosed `<` removes the rest of the text.
   */
  function StripTags(s: string): (r: string)
    ensures '<' !in r
    ensures |r| <= |s|
  {
    StripFrom(s, false)
  }

  function StripFrom(s: string, inTag: bool): (r: string)
    ensures '<' !in r
    ensures |r| <= |s|
    decreases |s|
  {
    if |s| == 0 then ""
    else if inTag then StripFrom(s[1..], s[0] != '>')
    else if s[0] == '<' then StripFrom(s[1..], true)
    else [s[0]] + StripFrom(s[1..], false)
  }

  /** Text without tags comes through unchanged. */
  lemma {:induction false} StripTagsKeepsPlainText(s: string)
    requires '<' !in s
    ensures StripTags(s) == s
    decreases |s|
  {
    if |s| > 0 {
      StripTagsKeepsPlainText(s[1..]);
      assert s == [s[0]] + s[1..];
    }
  }

  /** Stripping twice is stripping once. */
  lemma StripTagsIdempotent(s: string)
    ensures StripTags(StripTags(s)) == StripTags(s)
  {
    StripTagsKeepsPlainText(StripTags(s));
  }

  /** A closed tag is removed and the text after it is stripped in turn. */
  lemma StripTagsRemovesTag(a: string, tag: string, b: string)
    requires '<' !in a && '>' !in tag
    ensures StripTags(a + "<" + tag + ">" + b) == a + StripTags(b)
  {
    assert a + "<" + tag + ">" + b == a + ("<" + (tag + (">" + b)));
    StripPlainPrefix(a, "<" + (tag + (">" + b)));
    assert ("<" + (tag + (">" + b)))[1..] == tag + (">" + b);
    StripInsideTag(tag, ">" + b);
    assert (">" + b)[1..] == b;
  }

  /** An unclosed tag removes the rest of the text. */
  lemma StripTagsDropsUnclosedTag(a: string, tag: string)
    requires '<' !in a && '>' !in tag
    ensures StripTags(a + "<" + tag) == a
  {
    assert a + "<" + tag == a + ("<" + tag);
    StripPlainPrefix(a, "<" + tag);
    assert ("<" + tag)[1..] == tag;
    StripInsideTag(tag, "");
    assert tag + "" == tag;
    assert StripFrom("", true) == "";
  }

  /** Text before the first `<` is kept as it is. */
  lemma {:induction false} StripPlainPrefix(a: string, rest: string)
    requires '<' !in a
    ensures StripFrom(a + rest, false) == a + StripFrom(rest, false)
    decreases |a|
  {
    if |a| > 0 {
      assert (a + rest)[0] == a[0];
      assert (a + rest)[1..] == a[1..] + rest;
      StripPlainPrefix(a[1..], rest);
      assert a == [a[0]] + a[1..];
    } else {
      assert a + rest == rest;
    }
  }

  /** Inside a tag, everything up to the closing `>` is dropped. */
  lemma {:induction false} StripInsideTag(tag: string, rest: string)
    requires '>' !in tag
    ensures StripFrom(tag + rest, true) == StripFrom(rest, true)
    decreases |tag|
  {
    if |tag| > 0 {
      assert (tag + rest)[0] == tag[0];
      assert (tag + rest)[1..] == tag[1..] + rest;
      StripInsideTag(tag[1..], rest);
    } else {
      assert tag + rest == rest;
    }
  }

  /**
   * `s[k]` is the first `close` at or after `from`, and no newline comes
   * before it: the lazy `(.*?)` cannot cross a newline, since PCRE's `.`
   * does not match one.
   */
  predicate ClosesAt(s: string, close: char, from: int, k: int) {
    && 0 <= from <= k < |s|
    && s[k] == close
    && forall m :: from <= m < k ==> s[m] != close && s[m] != '\n'
  }

  /** The pattern `open(.*?)close` matches at `i`, closing at `k`. */
  predicate GroupAt(s: string, open: char, close: char, i: int, k: int) {
    0 <= i < |s| && s[i] == open && ClosesAt(s, close, i + 1, k)
  }

  /** A match that starts at a given place closes at exactly one place. */
  lemma ClosesAtUnique(s: string, close: char, from: int, k1: int, k2: int)
    requires ClosesAt(s, close, from, k1) && ClosesAt(s, close, from, k2)
    ensures k1 == k2
  {
  }

  lemma ScanCloseFinds(s: string, close: char, from: nat, k: nat)
    requires ClosesAt(s, close, from, k)
    ensures ScanClose(s, close, from) == Some(k)
  {
    ClosesAtUnique(s, close, from, k, ScanClose(s, close, from).value);
  }

  function ScanClose(s: string, close: char, from: nat): (r: Option<nat>)
    requires from <= |s|
    ensures r.Some? ==> ClosesAt(s, close, from, r.value)
    ensures r.None? ==> forall k :: !ClosesAt(s, close, from, k)
    decreases |s| - from
  {
    if from == |s| then None
    else if s[from] == close then Some(from)
    else if s[from] == '\n' then None
    else
      assert forall k :: ClosesAt(s, close, from, k) ==> ClosesAt(s, close, from + 1, k);
      ScanClose(s, close, from + 1)
  }

  /** The leftmost match of `open(.*?)close` starting at or after `from`. */
  function LazyMatch(s: string, open: char, close: char, from: nat): (r: Option<(nat, nat)>)
    ensures r.Some? ==> from <= r.value.0 && GroupAt(s, open, close, r.value.0, r.value.1)
    ensures r.Some? ==> forall i, k :: from <= i < r.value.0 ==> !GroupAt(s, open, close, i, k)
    ensures r.None? ==> forall i, k :: from <= i ==> !GroupAt(s, open, close, i, k)
    decreases |s| - from
  {
    if from >= |s| then None
    else if s[from] == open && ScanClose(s, close, from + 1).Some? then Some((from, ScanClose(s, close, from + 1).value))
    else LazyMatch(s, open, close, from + 1)
  }

  /** `preg_match('#open(.*?)close#', $s, $m)` followed by `$m[1]`. */
  function LazyCapture(s: string, open: char, close: char): (r: Option<string>)
    ensures r.Some? ==> close !in r.value && '\n' !in r.value
    ensures r.None? <==> forall i, k :: !GroupAt(s, open, close, i, k)
  {
    match LazyMatch(s, open, close, 0)
    case None => None
    case Some((i, k)) => Some(s[i + 1..k])
  }

  /**
   * The capture is the text between the leftmost opening delimiter that is
   * closed on its own line and the first closing delimiter after it.
   */
  lemma LazyCaptureIsLeftmost(s: string, open: char, close: char, i: nat, k: nat)
    requires GroupAt(s, open, close, i, k)
    requires forall i', k' :: 0 <= i' < i ==> !GroupAt(s, open, close, i', k')
    ensures LazyCapture(s, open, close) == Some(s[i + 1..k])
  {
    var m := LazyMatch(s, open, close, 0);
    assert m.Some?;
    assert m.value.0 == i;
    ClosesAtUnique(s, close, i + 1, k, m.value.1);
  }
}
