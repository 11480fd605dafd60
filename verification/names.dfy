/** The name key used for every food and ingredient comparison: the display
    name with surrounding whitespace stripped, then lower-cased
    (old_main.py, normalize_name). Whitespace is the set Python's
    `str.isspace` accepts; lower-casing is modelled for ASCII letters only. */
module Names {

  /** The characters Python's `str.strip()` removes by default. */
  predicate IsSpace(c: char) {
    var n := c as int;
    || (9 <= n <= 13)
    || (28 <= n <= 32)
    || n == 0x85 || n == 0xA0 || n == 0x1680
    || (0x2000 <= n <= 0x200A)
    || n == 0x2028 || n == 0x2029 || n == 0x202F || n == 0x205F || n == 0x3000
  }

  predicate AllSpace(s: string) {
    forall i :: 0 <= i < |s| ==> IsSpace(s[i])
  }

  predicate IsAsciiUpper(c: char) {
    'A' <= c <= 'Z'
  }

  function LowerChar(c: char): char {
    if IsAsciiUpper(c) then (c as int - 'A' as int + 'a' as int) as char else c
  }

  function Lower(s: string): string {
    seq(|s|, i requires 0 <= i < |s| => LowerChar(s[i]))
  }

  /** Drops leading whitespace: the result is a suffix of `s`, everything
      dropped is whitespace, and the result does not start with whitespace. */
  function StripStart(s: string): (r: string)
    ensures |r| <= |s| && r == s[|s| - |r|..]
    ensures AllSpace(s[..|s| - |r|])
    ensures r == [] || !IsSpace(r[0])
    decreases |s|
  {
    if |s| > 0 && IsSpace(s[0]) then StripStart(s[1..]) else s
  }

  /** Drops trailing whitespace: the result is a prefix of `s`, everything
      dropped is whitespace, and the result does not end with whitespace. */
  function StripEnd(s: string): (r: string)
    ensures |r| <= |s| && r == s[..|r|]
    ensures AllSpace(s[|r|..])
    ensures r == [] || !IsSpace(r[|r| - 1])
    decreases |s|
  {
    if |s| > 0 && IsSpace(s[|s| - 1]) then StripEnd(s[..|s| - 1]) else s
  }

  /** `t` is what stripping `s` leaves: a slice of `s` with only whitespace
      around it in `s`, and no whitespace at either of its own ends. */
  ghost predicate IsStripOf(t: string, s: string) {
    && (t == [] || (!IsSpace(t[0]) && !IsSpace(t[|t| - 1])))
    && exists a :: 0 <= a <= |s| - |t| && AllSpace(s[..a]) && s[a..a + |t|] == t && AllSpace(s[a + |t|..])
  }

  function Strip(s: string): (r: string)
    ensures IsStripOf(r, s)
  {
    var r := StripEnd(StripStart(s));
    StripIsStrip(s);
    r
  }

  lemma StripIsStrip(s: string)
    ensures IsStripOf(StripEnd(StripStart(s)), s)
  {
    var head := StripStart(s);
    var r := StripEnd(head);
    var a := |s| - |head|;
    assert s[a..] == head;
    assert s[a..a + |r|] == r by {
      assert head[..|r|] == r;
    }
    assert s[a + |r|..] == head[|r|..];
    assert r != [] ==> r[0] == head[0];
    StripWitness(r, s, a);
  }

  lemma StripWitness(t: string, s: string, a: int)
    requires t == [] || (!IsSpace(t[0]) && !IsSpace(t[|t| - 1]))
    requires 0 <= a <= |s| - |t| && AllSpace(s[..a]) && s[a..a + |t|] == t && AllSpace(s[a + |t|..])
    ensures IsStripOf(t, s)
  {
  }

  lemma LowerCharIsNotUpper(c: char)
    ensures !IsAsciiUpper(LowerChar(c))
    ensures IsSpace(LowerChar(c)) == IsSpace(c)
  {
  }

  /** normalize_name: strip, then lower-case. The key has no surrounding
      whitespace, no upper-case ASCII letter, and is the lower-cased
      stripped form of the input. */
  function NormalizeName(s: string): (r: string)
    ensures |r| <= |s|
    ensures r == [] || (!IsSpace(r[0]) && !IsSpace(r[|r| - 1]))
    ensures forall i :: 0 <= i < |r| ==> !IsAsciiUpper(r[i])
    ensures exists t :: IsStripOf(t, s) && r == Lower(t)
  {
    var t := Strip(s);
    LowerFacts(t);
    Lower(t)
  }

  /** Lower-casing keeps the length and the whitespace positions, and leaves
      no ASCII capital. */
  lemma LowerFacts(t: string)
    ensures |Lower(t)| == |t|
    ensures forall i :: 0 <= i < |t| ==> !IsAsciiUpper(Lower(t)[i]) && IsSpace(Lower(t)[i]) == IsSpace(t[i])
  {
    forall i | 0 <= i < |t|
      ensures !IsAsciiUpper(Lower(t)[i]) && IsSpace(Lower(t)[i]) == IsSpace(t[i])
    {
      LowerCharIsNotUpper(t[i]);
    }
  }

  /** A key is already normal: normalising twice equals normalising once. */
  lemma NormalizeIdempotent(s: string)
    ensures NormalizeName(NormalizeName(s)) == NormalizeName(s)
  {
    var r := NormalizeName(s);
    assert StripStart(r) == r;
    assert StripEnd(r) == r;
    assert Lower(r) == r by {
      forall i | 0 <= i < |r|
        ensures Lower(r)[i] == r[i]
      {
        assert !IsAsciiUpper(r[i]);
      }
    }
  }

  lemma {:induction false} StripStartSkipsSpace(pre: string, x: string)
    requires AllSpace(pre)
    ensures StripStart(pre + x) == StripStart(x)
    decreases |pre|
  {
    if |pre| > 0 {
      var px := pre + x;
      assert px[0] == pre[0];
      assert IsSpace(px[0]);
      assert px[1..] == pre[1..] + x;
      assert StripStart(px) == StripStart(px[1..]);
      assert AllSpace(pre[1..]);
      StripStartSkipsSpace(pre[1..], x);
    } else {
      assert pre + x == x;
    }
  }

  lemma {:induction false} StripEndSkipsSpace(x: string, post: string)
    requires AllSpace(post)
    ensures StripEnd(x + post) == StripEnd(x)
    decreases |post|
  {
    if |post| > 0 {
      var xp := x + post;
      assert xp[|xp| - 1] == post[|post| - 1];
      assert IsSpace(xp[|xp| - 1]);
      assert xp[..|xp| - 1] == x + post[..|post| - 1];
      assert StripEnd(xp) == StripEnd(xp[..|xp| - 1]);
      assert AllSpace(post[..|post| - 1]);
      StripEndSkipsSpace(x, post[..|post| - 1]);
    } else {
      assert x + post == x;
    }
  }

  /** Appending whitespace only extends the part that survives the leading
      strip, unless nothing survives at all. */
  lemma {:induction false} StripStartAppendSpace(s: string, post: string)
    requires AllSpace(post)
    ensures AllSpace(s) ==> StripStart(s + post) == []
    ensures !AllSpace(s) ==> StripStart(s + post) == StripStart(s) + post
    decreases |s|
  {
    if |s| == 0 {
      assert s + post == post;
    } else if IsSpace(s[0]) {
      assert (s + post)[1..] == s[1..] + post;
      StripStartAppendSpace(s[1..], post);
      assert AllSpace(s) <==> AllSpace(s[1..]) by {
        if AllSpace(s[1..]) {
          forall i | 0 <= i < |s|
            ensures IsSpace(s[i])
          {
            if i > 0 { assert s[i] == s[1..][i - 1]; }
          }
        }
      }
    } else {
      assert !AllSpace(s);
    }
  }

  /** Whitespace around a name never changes its key. */
  lemma NormalizeIgnoresPadding(pre: string, s: string, post: string)
    requires AllSpace(pre) && AllSpace(post)
    ensures NormalizeName(pre + s + post) == NormalizeName(s)
  {
    assert pre + s + post == pre + (s + post);
    StripStartSkipsSpace(pre, s + post);
    StripStartAppendSpace(s, post);
    if !AllSpace(s) {
      StripEndSkipsSpace(StripStart(s), post);
    }
  }

  lemma {:induction false} StripStartLower(s: string)
    ensures StripStart(Lower(s)) == Lower(StripStart(s))
    decreases |s|
  {
    if |s| > 0 {
      LowerCharIsNotUpper(s[0]);
      assert Lower(s)[1..] == Lower(s[1..]);
      StripStartLower(s[1..]);
    }
  }

  lemma {:induction false} StripEndLower(s: string)
    ensures StripEnd(Lower(s)) == Lower(StripEnd(s))
    decreases |s|
  {
    if |s| > 0 {
      LowerCharIsNotUpper(s[|s| - 1]);
      assert Lower(s)[..|s| - 1] == Lower(s[..|s| - 1]);
      StripEndLower(s[..|s| - 1]);
    }
  }

  /** ASCII case never changes a name's key. */
  lemma NormalizeIgnoresAsciiCase(s: string)
    ensures NormalizeName(Lower(s)) == NormalizeName(s)
  {
    StripStartLower(s);
    StripEndLower(StripStart(s));
    LowerIdempotent(Strip(s));
  }

  lemma LowerIdempotent(t: string)
    ensures Lower(Lower(t)) == Lower(t)
  {
    forall i | 0 <= i < |t|
      ensures Lower(Lower(t))[i] == Lower(t)[i]
    {
      LowerCharIsNotUpper(t[i]);
    }
  }

  /** A name without surrounding whitespace is only lower-cased. */
  lemma NormalizeUnpadded(s: string)
    requires s == [] || (!IsSpace(s[0]) && !IsSpace(s[|s| - 1]))
    ensures NormalizeName(s) == Lower(s)
  {
    assert StripStart(s) == s;
    assert StripEnd(s) == s;
  }

  /** Worked examples from the helper tests: the display names reduce to
      the keys the tests expect. */
  lemma NormalizeApfel()
    ensures NormalizeName("  ApFel  ") == "apfel"
  {
    calc {
      NormalizeName("  ApFel  ");
      { assert "  ApFel  " == "  " + "ApFel" + "  ";
        NormalizeIgnoresPadding("  ", "ApFel", "  "); }
      NormalizeName("ApFel");
      { NormalizeUnpadded("ApFel"); }
      Lower("ApFel");
      "apfel";
    }
  }

  lemma NormalizeBrot()
    ensures NormalizeName("\tBrot\n") == "brot"
  {
    calc {
      NormalizeName("\tBrot\n");
      { assert "\tBrot\n" == "\t" + "Brot" + "\n";
        NormalizeIgnoresPadding("\t", "Brot", "\n"); }
      NormalizeName("Brot");
      { NormalizeUnpadded("Brot"); }
      Lower("Brot");
      "brot";
    }
  }

  lemma NormalizeKaese()
    ensures NormalizeName("  K\U{E4}Se") == "k\U{E4}se"
  {
    calc {
      NormalizeName("  K\U{E4}Se");
      { assert "  K\U{E4}Se" == "  " + "K\U{E4}Se" + "";
        NormalizeIgnoresPadding("  ", "K\U{E4}Se", ""); }
      NormalizeName("K\U{E4}Se");
      { NormalizeUnpadded("K\U{E4}Se"); }
      Lower("K\U{E4}Se");
      "k\U{E4}se";
    }
  }
}
