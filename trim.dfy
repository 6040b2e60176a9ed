/** `trimWhitespace`, which works in place on a NUL-terminated `char` buffer. */
module Trim {
  import opened CLib

  predicate AllSpaces(s: seq<CChar>)
  {
    forall k | 0 <= k < |s| :: s[k] == Space
  }

  /** `s` without its trailing spaces. */
  function TrimEnd(s: seq<CChar>): (t: seq<CChar>)
    ensures t <= s
    ensures t == [] || t[|t| - 1] != Space
    ensures AllSpaces(s[|t|..])
  {
    if s != [] && s[|s| - 1] == Space then
      var t := TrimEnd(s[..|s| - 1]);
      assert s[|t|..] == s[..|s| - 1][|t|..] + [Space];
      t
    else s
  }

  /** The three properties in `TrimEnd`'s contract determine it: a prefix
      ending in a non-space, followed by spaces only, is the trimmed string. */
  lemma TrimEndUnique(s: seq<CChar>, j: nat)
    requires j < |s| && s[j] != Space && AllSpaces(s[j + 1..])
    ensures TrimEnd(s) == s[..j + 1]
  {
  }

  /** A string is all spaces exactly when nothing is left of it after trimming its end. */
  lemma AllSpacesIffTrimEndEmpty(s: seq<CChar>)
    ensures AllSpaces(s) <==> TrimEnd(s) == []
  {
  }

  /** `trimWhitespace(str)`: when the string is empty or all spaces the buffer
      is left alone. Otherwise a NUL is written just after the last non-space
      character, which removes the trailing spaces; the leading spaces stay in
      the buffer, since only the function's own pointer moves past them. */
  method TrimWhitespace(buf: array<CChar>)
    requires NulAtOrAfter(buf[..], 0)
    modifies buf
    ensures NulAtOrAfter(buf[..], 0)
    ensures AllSpaces(Content(old(buf[..]))) ==> buf[..] == old(buf[..])
    ensures !AllSpaces(Content(old(buf[..]))) ==>
              buf[..] == old(buf[..])[|TrimEnd(Content(old(buf[..])))| := 0]
    ensures Content(buf[..]) <= Content(old(buf[..]))
    ensures !AllSpaces(Content(old(buf[..]))) ==> Content(buf[..]) == TrimEnd(Content(old(buf[..])))
  {
    ghost var c := Content(buf[..]);
    ghost var n := NulIndex(buf[..], 0);
    var str := 0;
    while buf[str] == Space
      invariant 0 <= str <= n
      invariant AllSpaces(buf[..str])
      decreases n - str
    {
      str := str + 1;
    }
    if buf[str] == 0 {
      assert str == n && c == buf[..str];
      return;
    }
    assert c[str] != Space;
    var end := NulIndex(buf[..], str) - 1;
    assert end == n - 1;
    while end > str && buf[end] == Space
      invariant str <= end < n
      invariant AllSpaces(c[end + 1..])
    {
      end := end - 1;
    }
    assert c[end] != Space;
    TrimEndUnique(c, end);
    ContentAfterTerminator(buf[..], end + 1);
    buf[end + 1] := 0;
  }
}
