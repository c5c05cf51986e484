/** The persisted cursor: `read_last_index` and `write_last_index`, which keep
    the highest forwarded record index as decimal text in `last_index.txt`. */
module IndexCodec {
  import opened Common
  import opened Decimal

  /** What opening the cursor file finds. */
  datatype FileState = Missing | Contents(text: string)

  /** The characters Python's `str.strip()` removes that this model knows of:
      tab through carriage return, the separators 0x1C-0x1F, space, NEL and
      no-break space. */
  predicate IsSpace(c: char) {
    9 <= c as int <= 13 || 28 <= c as int <= 32 || c as int == 0x85 || c as int == 0xA0
  }

  predicate AllSpace(s: string) {
    forall i :: 0 <= i < |s| ==> IsSpace(s[i])
  }

  /** `s.lstrip()`: the suffix left once leading whitespace is gone. */
  function StripStart(s: string): (r: string)
    ensures |r| <= |s| && r == s[|s| - |r|..]
    ensures AllSpace(s[..|s| - |r|])
    ensures |r| > 0 ==> !IsSpace(r[0])
    decreases |s|
  {
    if |s| > 0 && IsSpace(s[0]) then StripStart(s[1..]) else s
  }

  /** `s.rstrip()`: the prefix left once trailing whitespace is gone. */
  function StripEnd(s: string): (r: string)
    ensures |r| <= |s| && r == s[..|r|]
    ensures AllSpace(s[|r|..])
    ensures |r| > 0 ==> !IsSpace(r[|r| - 1])
    decreases |s|
  {
    if |s| > 0 && IsSpace(s[|s| - 1]) then StripEnd(s[..|s| - 1]) else s
  }

  /** `s.strip()`: the slice of `s` left once the whitespace on both sides is
      gone; it is empty exactly when `s` is all whitespace. */
  function Strip(s: string): (r: string)
    ensures exists i :: Inside(s, i, r)
    ensures |r| > 0 ==> !IsSpace(r[0]) && !IsSpace(r[|r| - 1])
    ensures |r| == 0 <==> AllSpace(s)
  {
    StripInside(s);
    StripEnd(StripStart(s))
  }

  lemma StripInside(s: string)
    ensures var t := StripStart(s); var r := StripEnd(t);
      Inside(s, |s| - |t|, r) && (|r| == 0 <==> AllSpace(s))
  {
    var t := StripStart(s);
    var r := StripEnd(t);
    NestedSlice(s, t, r);
  }

  /** A prefix `r` of a suffix `t` of `s`, with whitespace cut off around both. */
  lemma NestedSlice(s: string, t: string, r: string)
    requires |t| <= |s| && t == s[|s| - |t|..] && AllSpace(s[..|s| - |t|])
    requires |r| <= |t| && r == t[..|r|] && AllSpace(t[|r|..])
    requires |r| > 0 ==> !IsSpace(r[0])
    ensures Inside(s, |s| - |t|, r) && (|r| == 0 <==> AllSpace(s))
  {
    var i := |s| - |t|;
    var pre, post := s[..i], t[|r|..];
    assert s == pre + t;
    assert t == r + post;
    assert s == pre + r + post;
    SliceAround(pre, r, post);
  }

  /** The parts of `pre + r + post`, and when it is all whitespace. */
  lemma SliceAround(pre: string, r: string, post: string)
    requires AllSpace(pre) && AllSpace(post)
    requires |r| > 0 ==> !IsSpace(r[0])
    ensures var s := pre + r + post;
      s[..|pre|] == pre && s[|pre|..|pre| + |r|] == r && s[|pre| + |r|..] == post
      && (|r| == 0 <==> AllSpace(s))
  {
    var s := pre + r + post;
    if |r| > 0 {
      assert s[|pre|] == r[0];
    } else {
      assert s == pre + post;
    }
  }

  /** `r` sits in `s` at `i`, with nothing but whitespace on either side. */
  predicate Inside(s: string, i: int, r: string) {
    0 <= i && i + |r| <= |s| && s[i..i + |r|] == r && AllSpace(s[..i]) && AllSpace(s[i + |r|..])
  }

  /** `strip` removes exactly the surrounding whitespace and nothing of a
      text that starts and ends with something else. */
  lemma {:induction false} StripSurrounded(pre: string, core: string, post: string)
    requires AllSpace(pre) && AllSpace(post)
    requires |core| > 0 && !IsSpace(core[0]) && !IsSpace(core[|core| - 1])
    ensures Strip(pre + core + post) == core
  {
    StripStartPrefix(pre, core + post);
    assert pre + core + post == pre + (core + post);
    StripEndSuffix(core, post);
  }

  lemma {:induction false} StripStartPrefix(pre: string, s: string)
    requires AllSpace(pre)
    requires |s| > 0 && !IsSpace(s[0])
    ensures StripStart(pre + s) == s
    decreases |pre|
  {
    if |pre| > 0 {
      assert (pre + s)[1..] == pre[1..] + s;
      StripStartPrefix(pre[1..], s);
    } else {
      assert pre + s == s;
    }
  }

  lemma {:induction false} StripEndSuffix(s: string, post: string)
    requires AllSpace(post)
    requires |s| > 0 && !IsSpace(s[|s| - 1])
    ensures StripEnd(s + post) == s
    decreases |post|
  {
    if |post| > 0 {
      assert (s + post)[..|s + post| - 1] == s + post[..|post| - 1];
      StripEndSuffix(s, post[..|post| - 1]);
    } else {
      assert s + post == s;
    }
  }

  /** `read_last_index()`: the integer stored in the file, and 0 when the file
      is missing or its stripped text is not an integer. It never fails. */
  function ReadLastIndex(f: FileState): (n: int)
    ensures f.Missing? ==> n == 0
    ensures f.Contents? && !WellFormed(Strip(f.text)) ==> n == 0
    ensures f.Contents? && WellFormed(Strip(f.text)) ==> ParseInt(Strip(f.text)) == Some(n)
  {
    match f
    case Missing => 0
    case Contents(text) =>
      match ParseInt(Strip(text))
      case None => 0
      case Some(v) => v
  }

  /** Canonical integer text begins and ends with a sign or a digit. */
  lemma CanonicalEnds(t: string)
    requires Canonical(t)
    ensures |t| > 0 && !IsSpace(t[0]) && !IsSpace(t[|t| - 1])
  {
    if t[0] == '-' {
      assert t[|t| - 1] == t[1..][|t| - 2];
    }
  }

  /** Text that does not begin or end with whitespace is its own strip. */
  lemma StripUnpadded(t: string)
    requires |t| > 0 && !IsSpace(t[0]) && !IsSpace(t[|t| - 1])
    ensures Strip(t) == t
  {
    StripSurrounded("", t, "");
    assert "" + t + "" == t;
  }

  /** `write_last_index(n)`: the file afterwards holds `str(n)`, which reads
      back as `n`. */
  function WriteLastIndex(n: int): (f: FileState)
    ensures f.Contents? && Canonical(f.text)
    ensures ReadLastIndex(f) == n
  {
    var text := IntToString(n);
    ParseIntToString(n);
    CanonicalEnds(text);
    StripUnpadded(text);
    Contents(text)
  }

  /** A cursor file someone opened and saved with surrounding whitespace
      (a trailing newline, say) still reads back as the number written. */
  lemma {:induction false} ReadPaddedWrite(n: int, pre: string, post: string)
    requires AllSpace(pre) && AllSpace(post)
    ensures ReadLastIndex(Contents(pre + WriteLastIndex(n).text + post)) == n
  {
    var text := WriteLastIndex(n).text;
    CanonicalEnds(text);
    StripSurrounded(pre, text, post);
    ParseIntToString(n);
  }

  /** Reading the file is the inverse of writing it on every text `write`
      can produce: such a file is rewritten byte for byte. */
  lemma {:induction false} WriteOfRead(f: FileState)
    requires f.Contents? && Canonical(f.text)
    ensures WriteLastIndex(ReadLastIndex(f)) == f
  {
    var t := f.text;
    IntToStringOfParse(t);
    CanonicalEnds(t);
    StripUnpadded(t);
  }
}
