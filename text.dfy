/**
 * Python's `str.strip()` with no argument, on sequences of characters: it removes
 * every leading and trailing character for which `str.isspace()` holds.
 */
module Text {
  import opened Sequences

  /**
   * The characters for which Python's `str.isspace()` holds: tab to carriage return,
   * the four separators 0x1C to 0x1F, space, NEL, no-break space, Ogham space mark,
   * the typographic spaces 0x2000 to 0x200A, line and paragraph separator, narrow
   * no-break space, medium mathematical space and ideographic space.
   */
  predicate IsSpace(c: char)
  {
    ('\t' <= c <= '\r') || ('\U{1C}' <= c <= ' ') || c == '\U{85}' || c == '\U{A0}' || c == '\U{1680}'
    || ('\U{2000}' <= c <= '\U{200A}') || c == '\U{2028}' || c == '\U{2029}' || c == '\U{202F}'
    || c == '\U{205F}' || c == '\U{3000}'
  }

  predicate AllSpace(s: string)
  {
    forall k :: 0 <= k < |s| ==> IsSpace(s[k])
  }

  /** Drops the leading whitespace (StripStartSpec states what it removes and what it keeps). */
  function StripStart(s: string): string
    decreases |s|
  {
    if s == [] || !IsSpace(s[0]) then s else StripStart(s[1..])
  }

  /** Drops the trailing whitespace (StripEndSpec states what it removes and what it keeps). */
  function StripEnd(s: string): string
    decreases |s|
  {
    if s == [] || !IsSpace(s[|s| - 1]) then s else StripEnd(s[..|s| - 1])
  }

  /** `s.strip()` (StripTrims and StripDecomposes state what it keeps and what it cuts off). */
  function Strip(s: string): string
  {
    StripEnd(StripStart(s))
  }

  /** What StripStart keeps is a suffix of `s` that does not start with whitespace; what it drops is all whitespace. */
  lemma {:induction false} StripStartSpec(s: string)
    ensures |StripStart(s)| <= |s| && StripStart(s) == s[|s| - |StripStart(s)|..]
    ensures forall k :: 0 <= k < |s| - |StripStart(s)| ==> IsSpace(s[k])
    ensures StripStart(s) == [] || !IsSpace(StripStart(s)[0])
    decreases |s|
  {
    if s != [] && IsSpace(s[0]) {
      StripStartSpec(s[1..]);
    }
  }

  /** What StripEnd keeps is a prefix of `s` that does not end with whitespace; what it drops is all whitespace. */
  lemma {:induction false} StripEndSpec(s: string)
    ensures |StripEnd(s)| <= |s| && StripEnd(s) == s[..|StripEnd(s)|]
    ensures forall k :: |StripEnd(s)| <= k < |s| ==> IsSpace(s[k])
    ensures StripEnd(s) == [] || !IsSpace(StripEnd(s)[|StripEnd(s)| - 1])
    decreases |s|
  {
    if s != [] && IsSpace(s[|s| - 1]) {
      StripEndSpec(s[..|s| - 1]);
    }
  }

  /** The result of `Strip` is no longer than its input and neither starts nor ends with whitespace. */
  lemma StripTrims(s: string)
    ensures |Strip(s)| <= |s|
    ensures Strip(s) == [] || (!IsSpace(Strip(s)[0]) && !IsSpace(Strip(s)[|Strip(s)| - 1]))
  {
    var t := StripStart(s);
    StripStartSpec(s);
    StripEndSpec(t);
  }

  /** The whitespace `Strip` cuts off at the front of `s`. */
  function Leading(s: string): string
  {
    StripStartSpec(s);
    s[..|s| - |StripStart(s)|]
  }

  /** The whitespace `Strip` cuts off at the back of `s`. */
  function Trailing(s: string): string
  {
    var t := StripStart(s);
    StripEndSpec(t);
    t[|StripEnd(t)|..]
  }

  /** `s` is what `Strip` keeps, with only whitespace cut off on either side of it. */
  lemma StripDecomposes(s: string)
    ensures s == Leading(s) + Strip(s) + Trailing(s)
    ensures AllSpace(Leading(s)) && AllSpace(Trailing(s))
  {
    var t := StripStart(s);
    var pre, r, post := Leading(s), Strip(s), Trailing(s);
    StripStartCutsSpace(s);
    StripEndCutsSpace(t);
    assert t == r + post;
    assert s == pre + t;
    AppendAssociates(pre, r, post);
  }

  lemma StripStartCutsSpace(s: string)
    ensures s == Leading(s) + StripStart(s) && AllSpace(Leading(s))
  {
    StripStartSpec(s);
    var pre := Leading(s);
    forall k | 0 <= k < |pre| ensures IsSpace(pre[k]) {
      assert pre[k] == s[k];
    }
  }

  lemma StripEndCutsSpace(t: string)
    ensures |StripEnd(t)| <= |t|
    ensures t == StripEnd(t) + t[|StripEnd(t)|..] && AllSpace(t[|StripEnd(t)|..])
  {
    StripEndSpec(t);
    var r := StripEnd(t);
    var post := t[|r|..];
    forall k | 0 <= k < |post| ensures IsSpace(post[k]) {
      assert post[k] == t[|r| + k];
    }
  }

  lemma {:induction false} StripStartOfSpacePrefix(pre: string, rest: string)
    requires AllSpace(pre)
    requires rest == [] || !IsSpace(rest[0])
    ensures StripStart(pre + rest) == rest
    decreases |pre|
  {
    if pre != [] {
      assert (pre + rest)[1..] == pre[1..] + rest;
      StripStartOfSpacePrefix(pre[1..], rest);
    } else {
      assert pre + rest == rest;
    }
  }

  lemma {:induction false} StripEndOfSpaceSuffix(core: string, post: string)
    requires AllSpace(post)
    requires core == [] || !IsSpace(core[|core| - 1])
    ensures StripEnd(core + post) == core
    decreases |post|
  {
    if post != [] {
      assert (core + post)[..|core + post| - 1] == core + post[..|post| - 1];
      StripEndOfSpaceSuffix(core, post[..|post| - 1]);
    } else {
      assert core + post == core;
    }
  }

  /**
   * The converse of Strip's contract: any text padded with whitespace on both sides
   * strips back to exactly its core, so `Strip` is the unique such decomposition.
   */
  lemma StripOfPadded(pre: string, core: string, post: string)
    requires AllSpace(pre) && AllSpace(post)
    requires core == [] || (!IsSpace(core[0]) && !IsSpace(core[|core| - 1]))
    ensures Strip(pre + core + post) == core
  {
    if core == [] {
      assert pre + core + post == (pre + post) + [];
      assert AllSpace(pre + post) by {
        forall k | 0 <= k < |pre + post| ensures IsSpace((pre + post)[k]) {
          if k >= |pre| { assert (pre + post)[k] == post[k - |pre|]; }
        }
      }
      StripStartOfSpacePrefix(pre + post, []);
    } else {
      var rest := core + post;
      assert pre + core + post == pre + rest;
      assert rest[0] == core[0];
      StripStartOfSpacePrefix(pre, rest);
      StripEndOfSpaceSuffix(core, post);
    }
  }

  /** Stripping twice is stripping once. */
  lemma StripIdempotent(s: string)
    ensures Strip(Strip(s)) == Strip(s)
  {
    var r := Strip(s);
    StripTrims(s);
    assert [] + r == r && r + [] == r;
    StripStartOfSpacePrefix([], r);
    StripEndOfSpaceSuffix(r, []);
  }
}
