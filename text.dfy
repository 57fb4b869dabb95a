/** Python `str` operations that the matchers rely on: `split(",")`, `strip()`,
    `lower()` and `endswith(...)`, over strings as sequences of characters. */
module Text {

  /** The characters Python's `str.isspace` accepts, which is what a bare
      `str.strip()` removes from both ends. */
  predicate IsSpace(c: char)
    ensures IsSpace(c) ==> c != ',' && !IsUpper(c) && !('a' <= c <= 'z') && !('0' <= c <= '9')
  {
    || c == ' ' || c == '\t' || c == '\n' || c == '\r'
    || c == '\U{000B}' || c == '\U{000C}'
    || ('\U{001C}' <= c <= '\U{001F}')
    || c == '\U{0085}' || c == '\U{00A0}' || c == '\U{1680}'
    || ('\U{2000}' <= c <= '\U{200A}')
    || c == '\U{2028}' || c == '\U{2029}' || c == '\U{202F}' || c == '\U{205F}'
    || c == '\U{3000}'
  }

  predicate AllSpace(s: string)
  {
    forall k :: 0 <= k < |s| ==> IsSpace(s[k])
  }

  lemma AllSpaceCons(c: char, s: string)
    ensures AllSpace([c] + s) <==> IsSpace(c) && AllSpace(s)
  {
    if AllSpace([c] + s) {
      assert ([c] + s)[0] == c;
      forall k | 0 <= k < |s| ensures IsSpace(s[k]) {
        assert s[k] == ([c] + s)[k + 1];
      }
    }
    if IsSpace(c) && AllSpace(s) {
      forall k | 0 <= k < |[c] + s| ensures IsSpace(([c] + s)[k]) {
        if k > 0 { assert ([c] + s)[k] == s[k - 1]; }
      }
    }
  }

  /** No whitespace at either end (the shape of every `strip()` result). */
  predicate IsStripped(s: string)
  {
    s == [] || (!IsSpace(s[0]) && !IsSpace(s[|s| - 1]))
  }

  /** `str.lstrip()`: the suffix left after dropping leading whitespace. */
  function TrimStart(s: string): (r: string)
    ensures |r| <= |s| && r == s[|s| - |r|..]
    ensures AllSpace(s[..|s| - |r|])
    ensures r == [] || !IsSpace(r[0])
  {
    if s != [] && IsSpace(s[0]) then TrimStart(s[1..]) else s
  }

  /** `str.rstrip()`: the prefix left after dropping trailing whitespace. */
  function TrimEnd(s: string): (r: string)
    ensures |r| <= |s| && r == s[..|r|]
    ensures AllSpace(s[|r|..])
    ensures r == [] || !IsSpace(r[|r| - 1])
  {
    if s != [] && IsSpace(s[|s| - 1]) then TrimEnd(s[..|s| - 1]) else s
  }

  /** `str.strip()`. */
  function Strip(s: string): (r: string)
    ensures IsStripped(r)
    ensures |r| <= |s|
  {
    TrimEnd(TrimStart(s))
  }

  /** Whitespace padding on either side of a stripped core is exactly what
      `strip()` removes, so the core is recovered. */
  lemma {:induction false} StripPadded(pre: string, core: string, post: string)
    requires AllSpace(pre) && AllSpace(post) && IsStripped(core)
    ensures Strip(pre + core + post) == core
  {
    if core == [] {
      assert pre + core + post == (pre + post) + [];
      TrimStartPadded(pre + post, []);
    } else {
      assert pre + core + post == pre + (core + post);
      TrimStartPadded(pre, core + post);
      TrimEndPadded(core, post);
    }
  }

  lemma {:induction false} TrimStartPadded(pre: string, rest: string)
    requires AllSpace(pre)
    requires rest == [] || !IsSpace(rest[0])
    ensures TrimStart(pre + rest) == rest
  {
    if pre != [] {
      assert (pre + rest)[1..] == pre[1..] + rest;
      TrimStartPadded(pre[1..], rest);
    }
  }

  lemma {:induction false} TrimEndPadded(rest: string, post: string)
    requires AllSpace(post)
    requires rest == [] || !IsSpace(rest[|rest| - 1])
    ensures TrimEnd(rest + post) == rest
  {
    if post != [] {
      assert (rest + post)[..|rest + post| - 1] == rest + post[..|post| - 1];
      TrimEndPadded(rest, post[..|post| - 1]);
    }
  }

  /** A piece that survives `if piece.strip()`: something besides whitespace. */
  predicate NonBlank(s: string)
  {
    Strip(s) != []
  }

  /** `strip()` gives the empty string exactly when the input is all whitespace. */
  lemma StripEmptyIffBlank(s: string)
    ensures Strip(s) == [] <==> AllSpace(s)
  {
    var t := TrimStart(s);
    if t != [] {
      assert !IsSpace(s[|s| - |t|]);
    }
  }

  /** ASCII upper-case letters, the only ones `Lower` maps. */
  predicate IsUpper(c: char)
  {
    'A' <= c <= 'Z'
  }

  function LowerChar(c: char): (d: char)
    ensures !IsUpper(d)
    ensures IsSpace(d) <==> IsSpace(c)
    ensures IsUpper(c) ==> d as int == c as int + 32
    ensures !IsUpper(c) ==> d == c
  {
    if IsUpper(c) then (c as int + 32) as char else c
  }

  predicate IsLower(s: string)
  {
    forall k :: 0 <= k < |s| ==> !IsUpper(s[k])
  }

  /** `str.lower()` with ASCII case mapping. */
  function Lower(s: string): (r: string)
    ensures |r| == |s|
    ensures forall k {:trigger r[k]} :: 0 <= k < |s| ==> r[k] == LowerChar(s[k])
  {
    seq(|s|, k requires 0 <= k < |s| => LowerChar(s[k]))
  }

  lemma LowerIsLower(s: string)
    ensures IsLower(Lower(s))
  {
  }

  /** Two characters that are the same letter up to ASCII case, or simply
      equal. */
  predicate SameIgnoringCase(a: char, b: char)
  {
    || a == b
    || ('A' <= a <= 'Z' && b as int == a as int + 32)
    || ('A' <= b <= 'Z' && a as int == b as int + 32)
  }

  lemma LowerCharAgree(a: char, b: char)
    ensures LowerChar(a) == LowerChar(b) <==> SameIgnoringCase(a, b)
  {
  }

  /** `s.lower() == t.lower()` exactly when the strings have the same length
      and agree letter by letter up to ASCII case: case variants of a skill
      meet, and nothing else does. */
  lemma LowerEqualIffSameIgnoringCase(s: string, t: string)
    ensures Lower(s) == Lower(t)
        <==> |s| == |t| && forall k :: 0 <= k < |s| ==> SameIgnoringCase(s[k], t[k])
  {
    if Lower(s) == Lower(t) {
      forall k | 0 <= k < |s| ensures SameIgnoringCase(s[k], t[k]) {
        assert Lower(s)[k] == Lower(t)[k];
        LowerCharAgree(s[k], t[k]);
      }
    }
    if |s| == |t| && forall k :: 0 <= k < |s| ==> SameIgnoringCase(s[k], t[k]) {
      forall k | 0 <= k < |s| ensures Lower(s)[k] == Lower(t)[k] {
        LowerCharAgree(s[k], t[k]);
      }
    }
  }

  lemma LowerSlice(s: string, i: int, j: int)
    requires 0 <= i <= j <= |s|
    ensures Lower(s[i..j]) == Lower(s)[i..j]
  {
  }

  lemma {:induction false} LowerTrimStart(s: string)
    ensures TrimStart(Lower(s)) == Lower(TrimStart(s))
  {
    if s != [] && IsSpace(s[0]) {
      LowerDropFirst(s);
      LowerTrimStart(s[1..]);
    } else if s != [] {
      assert !IsSpace(Lower(s)[0]);
    }
  }

  lemma LowerDropFirst(s: string)
    requires s != [] && IsSpace(s[0])
    ensures TrimStart(Lower(s)) == TrimStart(Lower(s[1..]))
  {
    var l := Lower(s);
    assert IsSpace(l[0]);
    assert l[1..] == Lower(s[1..]);
  }

  lemma {:induction false} LowerTrimEnd(s: string)
    ensures TrimEnd(Lower(s)) == Lower(TrimEnd(s))
  {
    if s != [] && IsSpace(s[|s| - 1]) {
      LowerDropLast(s);
      LowerTrimEnd(s[..|s| - 1]);
    } else if s != [] {
      assert !IsSpace(Lower(s)[|s| - 1]);
    }
  }

  lemma LowerDropLast(s: string)
    requires s != [] && IsSpace(s[|s| - 1])
    ensures TrimEnd(Lower(s)) == TrimEnd(Lower(s[..|s| - 1]))
  {
    var l := Lower(s);
    assert IsSpace(l[|l| - 1]);
    LowerSlice(s, 0, |s| - 1);
    assert s[0..|s| - 1] == s[..|s| - 1];
    assert l[..|l| - 1] == Lower(s[..|s| - 1]);
  }

  /** Case mapping and trimming commute: `s.lower().strip()` (the router)
      and `s.strip().lower()` (the crud helper) agree. */
  lemma LowerStripCommute(s: string)
    ensures Strip(Lower(s)) == Lower(Strip(s))
  {
    LowerTrimStart(s);
    LowerTrimEnd(TrimStart(s));
  }

  /** Lower-casing twice is lower-casing once. */
  lemma LowerIdempotent(s: string)
    ensures Lower(Lower(s)) == Lower(s)
  {
  }

  /** Number of occurrences of `c` in `s`. */
  function Occurrences(s: string, c: char): nat
  {
    if s == [] then 0 else (if s[0] == c then 1 else 0) + Occurrences(s[1..], c)
  }

  /** `str.split(sep)` with an explicit one-character separator: the pieces
      between separators, empty pieces included. */
  function Split(s: string, sep: char): (r: seq<string>)
    ensures |r| == Occurrences(s, sep) + 1
    ensures forall p :: p in r ==> sep !in p
  {
    if s == [] then [""]
    else
      var rest := Split(s[1..], sep);
      if s[0] == sep then [""] + rest
      else [[s[0]] + rest[0]] + rest[1..]
  }

  /** `sep.join(pieces)`. */
  function Join(pieces: seq<string>, sep: char): string
    requires |pieces| >= 1
  {
    if |pieces| == 1 then pieces[0] else pieces[0] + [sep] + Join(pieces[1..], sep)
  }

  /** Joining the pieces again gives back the input. */
  lemma {:induction false} JoinSplit(s: string, sep: char)
    ensures Join(Split(s, sep), sep) == s
  {
    if s != [] {
      var rest := Split(s[1..], sep);
      JoinSplit(s[1..], sep);
      if s[0] == sep {
        assert Split(s, sep)[1..] == rest;
      } else {
        var r := Split(s, sep);
        if |rest| == 1 {
          assert r == [[s[0]] + rest[0]];
        } else {
          assert r[1..] == rest[1..];
          assert Join(rest, sep) == rest[0] + [sep] + Join(rest[1..], sep);
        }
      }
    }
  }

  /** Splitting a join of separator-free pieces gives the pieces back. */
  lemma {:induction false} SplitJoin(pieces: seq<string>, sep: char)
    requires |pieces| >= 1
    requires forall p :: p in pieces ==> sep !in p
    ensures Split(Join(pieces, sep), sep) == pieces
  {
    if |pieces| == 1 {
      SplitFree(pieces[0], sep);
    } else {
      SplitJoin(pieces[1..], sep);
      SplitCons(pieces[0], Join(pieces[1..], sep), sep);
      assert pieces[0] + [sep] + Join(pieces[1..], sep) == pieces[0] + ([sep] + Join(pieces[1..], sep));
      assert [pieces[0]] + pieces[1..] == pieces;
    }
  }

  lemma {:induction false} SplitFree(p: string, sep: char)
    requires sep !in p
    ensures Split(p, sep) == [p]
  {
    if p != [] {
      SplitFree(p[1..], sep);
      assert [p[0]] + p[1..] == p;
    }
  }

  lemma {:induction false} SplitCons(p: string, t: string, sep: char)
    requires sep !in p
    ensures Split(p + ([sep] + t), sep) == [p] + Split(t, sep)
  {
    if p == [] {
      assert p + ([sep] + t) == [sep] + t;
      assert ([sep] + t)[1..] == t;
    } else {
      assert (p + ([sep] + t))[1..] == p[1..] + ([sep] + t);
      SplitCons(p[1..], t, sep);
      assert [p[0]] + p[1..] == p;
    }
  }

  /** `str.endswith(suffix)`: holds exactly when the string is some stem
      followed by the suffix. */
  predicate EndsWith(s: string, suffix: string)
    ensures EndsWith(s, suffix) <==> |suffix| <= |s| && s == s[..|s| - |suffix|] + suffix
  {
    var n := |s| - |suffix|;
    assert |suffix| <= |s| ==> s == s[..n] + s[n..];
    |suffix| <= |s| && s[n..] == suffix
  }
}
