/**
 The string functions of the C library the models need. A text is the characters before its
 terminating NUL; a pointer into a text is the rest of the text from there on.
 */
module CStrings {

  /** strncpy into a zeroed buffer of `size` bytes, and snprintf into one. */
  function Cut(s: string, size: nat): (r: string)
    requires size > 0
    ensures |r| < size && (|s| < size ==> r == s)
  {
    if |s| < size then s else s[..size - 1]
  }

  /** The first position of `c` in `s` from `i` on, or |s|. */
  function FindCharFrom(s: string, i: nat, c: char): (r: nat)
    requires i <= |s|
    ensures i <= r <= |s|
    ensures r < |s| ==> s[r] == c
    ensures forall k :: i <= k < r ==> s[k] != c
    decreases |s| - i
  {
    if i == |s| || s[i] == c then i else FindCharFrom(s, i + 1, c)
  }

  /** strchr: how far ahead the first `c` is, or |s|. */
  function FindChar(s: string, c: char): (r: nat)
    ensures r <= |s|
    ensures r < |s| ==> s[r] == c
  {
    FindCharFrom(s, 0, c)
  }

  lemma {:induction false} FindCharIs(s: string, i: nat, k: nat, c: char)
    requires i <= k < |s| && s[k] == c
    requires forall j :: i <= j < k ==> s[j] != c
    ensures FindCharFrom(s, i, c) == k
    decreases k - i
  {
    if i < k {
      FindCharIs(s, i + 1, k, c);
    }
  }

  /** strstr for a nonempty pattern: how far ahead its first occurrence is, or |s|. */
  function FindText(s: string, pat: string): (r: nat)
    ensures r <= |s|
    ensures r < |s| ==> r + |pat| <= |s|
  {
    if s == "" then 0
    else if pat <= s then 0
    else 1 + FindText(s[1..], pat)
  }

  lemma CharSkips(seg: string, s: string, c: char)
    requires c !in seg
    ensures FindChar(seg + s, c) == |seg| + FindChar(s, c)
  {
    var r := FindChar(s, c);
    if r < |s| {
      assert (seg + s)[|seg| + r] == c;
    }
  }

  lemma Joined(a: string, b: string, c: string)
    ensures (a + b) + c == a + (b + c)
  {
  }
}
