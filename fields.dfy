/**
 * The framework's handling of a submitted text field, which every text
 * column of the models receives through its serializer: the value is
 * stripped of surrounding whitespace, a blank value is refused unless the
 * column allows blanks, and a value holding a NUL character is refused.
 *
 * Whitespace is what Python's `str.isspace` accepts, which is the set of
 * characters `str.strip` removes.
 */
module Fields {
  import opened Models

  predicate IsSpace(c: char)
  {
    || '\t' <= c <= '\r'
    || '\U{1C}' <= c <= ' '
    || c == '\U{85}' || c == '\U{A0}' || c == '\U{1680}'
    || '\U{2000}' <= c <= '\U{200A}'
    || c == '\U{2028}' || c == '\U{2029}' || c == '\U{202F}' || c == '\U{205F}' || c == '\U{3000}'
  }

  predicate AllSpace(s: string)
  {
    forall i :: 0 <= i < |s| ==> IsSpace(s[i])
  }

  /** Neither end of `s` is whitespace. */
  predicate IsTrimmed(s: string)
  {
    s == [] || (!IsSpace(s[0]) && !IsSpace(s[|s| - 1]))
  }

  /** The number of whitespace characters `s` starts with. */
  function LeadingSpaces(s: string): (n: nat)
    ensures n <= |s|
    ensures forall i :: 0 <= i < n ==> IsSpace(s[i])
    ensures n < |s| ==> !IsSpace(s[n])
  {
    if s == [] || !IsSpace(s[0]) then 0 else 1 + LeadingSpaces(s[1..])
  }

  /** The number of whitespace characters `s` ends with. */
  function TrailingSpaces(s: string): (n: nat)
    ensures n <= |s|
    ensures forall i :: |s| - n <= i < |s| ==> IsSpace(s[i])
    ensures n < |s| ==> !IsSpace(s[|s| - 1 - n])
  {
    if s == [] || !IsSpace(s[|s| - 1]) then 0 else 1 + TrailingSpaces(s[..|s| - 1])
  }

  /** `s` without its leading and trailing whitespace. */
  function Strip(s: string): (r: string)
    ensures |r| <= |s|
  {
    var lead := LeadingSpaces(s);
    s[lead..|s| - TrailingSpaces(s[lead..])]
  }

  /**
   * The stripped form is the slice between the leading and the trailing
   * whitespace, and only whitespace lies outside it.
   */
  lemma StripIsSlice(s: string)
    ensures LeadingSpaces(s) + |Strip(s)| <= |s|
    ensures Strip(s) == s[LeadingSpaces(s)..LeadingSpaces(s) + |Strip(s)|]
    ensures forall i :: 0 <= i < LeadingSpaces(s) ==> IsSpace(s[i])
    ensures forall i :: LeadingSpaces(s) + |Strip(s)| <= i < |s| ==> IsSpace(s[i])
  {
    var lead := LeadingSpaces(s);
    var t := s[lead..];
    var trail := TrailingSpaces(t);
    forall i | lead + |Strip(s)| <= i < |s| ensures IsSpace(s[i]) {
      assert s[i] == t[i - lead];
    }
  }

  lemma StripIsTrimmed(s: string)
    ensures IsTrimmed(Strip(s))
  {
    var lead := LeadingSpaces(s);
    var t := s[lead..];
    var trail := TrailingSpaces(t);
    var r := Strip(s);
    if r != [] {
      assert r[0] == s[lead];
      assert r[|r| - 1] == t[|t| - 1 - trail];
    }
  }

  /** Stripping leaves nothing exactly when the value is blank. */
  lemma StripEmptyIffBlank(s: string)
    ensures Strip(s) == [] <==> AllSpace(s)
  {
    var lead := LeadingSpaces(s);
    if lead < |s| {
      var t := s[lead..];
      assert t[0] == s[lead];
      assert TrailingSpaces(t) < |t|;
    }
  }

  /**
   * `s` splits into whitespace, its stripped form and whitespace, and the
   * stripped form is trimmed; it is empty exactly when `s` is blank.
   */
  lemma StripSplits(s: string)
    ensures LeadingSpaces(s) + |Strip(s)| <= |s|
    ensures Strip(s) == s[LeadingSpaces(s)..LeadingSpaces(s) + |Strip(s)|]
    ensures AllSpace(s[..LeadingSpaces(s)]) && AllSpace(s[LeadingSpaces(s) + |Strip(s)|..])
    ensures IsTrimmed(Strip(s))
    ensures Strip(s) == [] <==> AllSpace(s)
  {
    StripIsSlice(s);
    StripIsTrimmed(s);
    StripEmptyIffBlank(s);
    var end := LeadingSpaces(s) + |Strip(s)|;
    assert AllSpace(s[end..]) by {
      forall i | 0 <= i < |s[end..]| ensures IsSpace(s[end..][i]) {
        assert s[end..][i] == s[end + i];
      }
    }
  }

  /** Stripping removes only whitespace, so it keeps every NUL character. */
  lemma NulSurvivesStrip(raw: string)
    ensures '\0' in raw <==> '\0' in Strip(raw)
  {
    StripIsSlice(raw);
    var lead, r := LeadingSpaces(raw), Strip(raw);
    assert !IsSpace('\0');
    if '\0' in raw {
      var i :| 0 <= i < |raw| && raw[i] == '\0';
      assert r[i - lead] == raw[i];
    }
    if '\0' in r {
      var i :| 0 <= i < |r| && r[i] == '\0';
      assert raw[lead + i] == r[i];
    }
  }

  /** Whitespace before a non-whitespace character is exactly the leading run. */
  lemma {:induction false} LeadingSpacesOfPadded(pre: string, rest: string)
    requires AllSpace(pre) && rest != [] && !IsSpace(rest[0])
    ensures LeadingSpaces(pre + rest) == |pre|
    decreases |pre|
  {
    if pre == [] {
      assert pre + rest == rest;
    } else {
      assert (pre + rest)[0] == pre[0];
      assert (pre + rest)[1..] == pre[1..] + rest;
      LeadingSpacesOfPadded(pre[1..], rest);
    }
  }

  /** Whitespace after a non-whitespace character is exactly the trailing run. */
  lemma {:induction false} TrailingSpacesOfPadded(rest: string, post: string)
    requires AllSpace(post) && rest != [] && !IsSpace(rest[|rest| - 1])
    ensures TrailingSpaces(rest + post) == |post|
    decreases |post|
  {
    if post == [] {
      assert rest + post == rest;
    } else {
      var s := rest + post;
      assert s[|s| - 1] == post[|post| - 1];
      assert s[..|s| - 1] == rest + post[..|post| - 1];
      TrailingSpacesOfPadded(rest, post[..|post| - 1]);
    }
  }

  /**
   * Stripping removes exactly the whitespace around a trimmed core: the
   * split of `StripSplits` is the only one there is.
   */
  lemma StripPadded(pre: string, core: string, post: string)
    requires AllSpace(pre) && AllSpace(post) && IsTrimmed(core)
    ensures Strip(pre + core + post) == core
  {
    var s := pre + core + post;
    if core == [] {
      assert AllSpace(s) by {
        forall i | 0 <= i < |s| ensures IsSpace(s[i]) {
          if i < |pre| { assert s[i] == pre[i]; } else { assert s[i] == post[i - |pre|]; }
        }
      }
      StripEmptyIffBlank(s);
    } else {
      assert s == pre + (core + post);
      LeadingSpacesOfPadded(pre, core + post);
      assert s[|pre|..] == core + post;
      TrailingSpacesOfPadded(core, post);
      assert s[|pre|..|s| - |post|] == core;
    }
  }

  lemma StripIdempotent(s: string)
    ensures Strip(Strip(s)) == Strip(s)
  {
    StripPadded([], Strip(s), []);
    assert [] + Strip(s) + [] == Strip(s);
  }

  /**
   * A submitted text value as the serializer's field accepts it: the value
   * stripped of surrounding whitespace, or `None` when the field refuses it.
   */
  function CleanText(raw: string, allowBlank: bool): (r: Option<string>)
    ensures r.None? <==> (AllSpace(raw) && !allowBlank) || '\0' in raw
    ensures r.Some? ==> r.value == Strip(raw)
    ensures r.Some? && !allowBlank ==> |r.value| > 0
  {
    var s := Strip(raw);
    NulSurvivesStrip(raw);
    StripEmptyIffBlank(raw);
    if AllSpace(raw) then (if allowBlank then Some([]) else None)
    else if '\0' in s then None
    else Some(s)
  }

  /** Stripping leaves a trimmed value as it is. */
  lemma StripKeepsTrimmed(s: string)
    requires IsTrimmed(s)
    ensures Strip(s) == s
  {
    StripPadded([], s, []);
    assert [] + s + [] == s;
  }

  /** A non-empty, NUL-free value with whitespace around it is accepted and cleaned to the value alone. */
  lemma CleanPadded(pre: string, core: string, post: string, allowBlank: bool)
    requires AllSpace(pre) && AllSpace(post)
    requires core != [] && IsTrimmed(core) && '\0' !in core
    ensures CleanText(pre + core + post, allowBlank) == Some(core)
  {
    var s := pre + core + post;
    StripPadded(pre, core, post);
    NulSurvivesStrip(s);
    StripEmptyIffBlank(s);
  }

  /** A value the serializer keeps as it is: non-empty, trimmed and free of NUL. */
  lemma CleanKeepsTrimmed(s: string, allowBlank: bool)
    requires s != [] && IsTrimmed(s) && '\0' !in s
    ensures CleanText(s, allowBlank) == Some(s)
  {
    StripKeepsTrimmed(s);
  }
}
