/** Color::_stripColors, the `preg_replace("/\033\[\d+m/", '', $text)` behind clean and strip. */
module Escapes {
  import opened Results
  import opened Chars
  import opened StyleTable

  /** `x` is exactly one match of \033\[\d+m. */
  predicate IsSgr(x: string) {
    && |x| >= 4
    && x[0] == ESC && x[1] == '[' && x[|x| - 1] == 'm'
    && forall i :: 2 <= i < |x| - 1 ==> IsDigit(x[i])
  }

  /** No match of \033\[\d+m anywhere in `s`. */
  ghost predicate NoSgr(s: string) {
    forall i, j :: 0 <= i <= j <= |s| ==> !IsSgr(s[i..j])
  }

  /** The end of the run of digits that starts at `i`. */
  function DigitRun(s: string, i: nat): (r: nat)
    requires i <= |s|
    ensures i <= r <= |s|
    ensures forall k :: i <= k < r ==> IsDigit(s[k])
    ensures r < |s| ==> !IsDigit(s[r])
    decreases |s| - i
  {
    if i < |s| && IsDigit(s[i]) then DigitRun(s, i + 1) else i
  }

  /** A match at the start of `s` ends right after the digit run that starts at index 2. */
  lemma SgrShape(s: string, n: nat)
    requires n <= |s| && IsSgr(s[..n])
    ensures DigitRun(s, 2) == n - 1 && s[n - 1] == 'm'
  {
    assert s[..n][n - 1] == s[n - 1];
    assert forall k :: 2 <= k < n - 1 ==> s[..n][k] == s[k];
  }

  /** The length of the match at the start of `s`, if there is one; it is unique. */
  function SgrPrefix(s: string): (r: Option<nat>)
    ensures r.Some? ==> r.value <= |s| && IsSgr(s[..r.value])
    ensures forall n :: 0 <= n <= |s| && IsSgr(s[..n]) ==> r == Some(n)
  {
    if |s| >= 4 && s[0] == ESC && s[1] == '[' then
      var d := DigitRun(s, 2);
      if d > 2 && d < |s| && s[d] == 'm' then
        assert IsSgr(s[..d + 1]) by {
          assert forall k :: 0 <= k <= d ==> s[..d + 1][k] == s[k];
        }
        assert forall n :: 0 <= n <= |s| && IsSgr(s[..n]) ==> n == d + 1 by {
          forall n | 0 <= n <= |s| && IsSgr(s[..n])
            ensures n == d + 1
          {
            SgrShape(s, n);
          }
        }
        Some(d + 1)
      else
        assert forall n :: 0 <= n <= |s| ==> !IsSgr(s[..n]) by {
          forall n | 0 <= n <= |s|
            ensures !IsSgr(s[..n])
          {
            if IsSgr(s[..n]) {
              SgrShape(s, n);
            }
          }
        }
        None
    else
      None
  }

  /** Every match is deleted, scanning left to right and resuming after each match. */
  function Clean(s: string): (r: string)
    ensures |r| <= |s|
    decreases |s|
  {
    if s == [] then []
    else match SgrPrefix(s)
      case Some(n) => Clean(s[n..])
      case None => [s[0]] + Clean(s[1..])
  }

  /** Clean leaves a string unchanged exactly when it holds no escape sequence to remove. */
  lemma {:induction false} CleanFixesExactlySgrFree(s: string)
    ensures Clean(s) == s <==> NoSgr(s)
    decreases |s|
  {
    if s == [] {
      assert NoSgr(s) by {
        forall i, j | 0 <= i <= j <= |s|
          ensures !IsSgr(s[i..j])
        {
        }
      }
    } else {
      var tail := s[1..];
      CleanFixesExactlySgrFree(tail);
      NoSgrCons(s);
      match SgrPrefix(s)
      case Some(n) =>
        assert |Clean(s)| < |s|;
      case None =>
        assert Clean(s) == s <==> Clean(tail) == tail by {
          assert s == [s[0]] + tail;
        }
    }
  }

  /** A text is free of matches when none starts at its front and its tail is free of them. */
  lemma NoSgrCons(s: string)
    requires s != []
    ensures NoSgr(s) <==> (forall n :: 0 <= n <= |s| ==> !IsSgr(s[..n])) && NoSgr(s[1..])
  {
    var tail := s[1..];
    if NoSgr(s) {
      forall n | 0 <= n <= |s|
        ensures !IsSgr(s[..n])
      {
        assert s[..n] == s[0..n];
      }
      forall i, j | 0 <= i <= j <= |tail|
        ensures !IsSgr(tail[i..j])
      {
        SliceOfTail(s, i + 1, j + 1);
      }
    }
    if (forall n :: 0 <= n <= |s| ==> !IsSgr(s[..n])) && NoSgr(tail) {
      forall i, j | 0 <= i <= j <= |s|
        ensures !IsSgr(s[i..j])
      {
        if i == 0 {
          assert s[i..j] == s[..j];
        } else {
          SliceOfTail(s, i, j);
        }
      }
    }
  }

  lemma SliceOfTail(s: string, i: nat, j: nat)
    requires 1 <= i <= j <= |s|
    ensures s[i..j] == s[1..][i - 1..j - 1]
  {
    var t := s[1..][i - 1..j - 1];
    assert forall k :: 0 <= k < |t| ==> t[k] == s[i + k];
  }

  /** A prefix that reaches past an escape byte at index |a| > 0 is not a match. */
  lemma NoSgrAcrossEsc(a: string, b: string, n: nat)
    requires a != [] && b != [] && b[0] == ESC
    requires |a| < n <= |a + b|
    ensures !IsSgr((a + b)[..n])
  {
    var x := (a + b)[..n];
    assert x[|a|] == ESC;
  }

  /** A match never runs onto an escape byte, so appending at one leaves the first match alone. */
  lemma SgrPrefixOfAppend(a: string, b: string)
    requires a != []
    requires b == [] || b[0] == ESC
    ensures SgrPrefix(a + b) == SgrPrefix(a)
  {
    var ab := a + b;
    match SgrPrefix(ab)
    case Some(n) =>
      if n <= |a| {
        assert ab[..n] == a[..n];
      } else {
        NoSgrAcrossEsc(a, b, n);
      }
    case None =>
  }

  /**
   * No match can run across a boundary where an escape byte starts, so cleaning splits
   * there.
   */
  lemma CleanSplitsAtEsc(a: string, b: string)
    requires b == [] || b[0] == ESC
    ensures Clean(a + b) == Clean(a) + Clean(b)
  {
    CleanSplitsAt(a, b, a + b);
  }

  /** CleanSplitsAtEsc with the concatenation passed in, so each step only takes slices of it. */
  lemma {:induction false} CleanSplitsAt(a: string, b: string, ab: string)
    requires b == [] || b[0] == ESC
    requires ab == a + b
    ensures Clean(ab) == Clean(a) + Clean(b)
    decreases |a|
  {
    if a == [] {
      assert ab == b;
    } else {
      SgrPrefixOfAppend(a, b);
      CleanStep(a);
      CleanStep(ab);
      match SgrPrefix(a)
      case Some(n) =>
        DropOfAppend(a, b, ab, n);
        CleanSplitsAt(a[n..], b, ab[n..]);
      case None =>
        DropOfAppend(a, b, ab, 1);
        CleanSplitsAt(a[1..], b, ab[1..]);
        ConsAssoc(a[0], Clean(a[1..]), Clean(b));
    }
  }

  /** One step of the scan: a match at the front is dropped, otherwise the first byte is kept. */
  lemma CleanStep(s: string)
    requires s != []
    ensures SgrPrefix(s).Some? ==> Clean(s) == Clean(s[SgrPrefix(s).value..])
    ensures SgrPrefix(s).None? ==> Clean(s) == [s[0]] + Clean(s[1..])
  {
  }

  lemma DropOfAppend(a: string, b: string, ab: string, n: nat)
    requires ab == a + b && n <= |a|
    ensures ab[n..] == a[n..] + b
  {
  }

  lemma ConsAssoc(c: char, x: string, y: string)
    ensures [c] + (x + y) == ([c] + x) + y
  {
  }

  /** An opening sequence at the front is removed whole. */
  lemma CleanDropsLeadingSgr(code: string, t: string)
    requires IsCode(code)
    ensures Clean(Sgr(code) + t) == Clean(t)
  {
    var s := Sgr(code) + t;
    var n := |code| + 3;
    assert s[..n] == Sgr(code);
    assert s[n..] == t;
    assert SgrPrefix(s) == Some(n);
  }

  /** Cleaning a literal style's output gives back the cleaned text: clean inverts apply. */
  lemma CleanWrap(code: string, t: string)
    requires IsCode(code)
    ensures Clean(Wrap(code, t)) == Clean(t)
  {
    CleanDropsLeadingSgr(code, t + Sgr("0"));
    assert Wrap(code, t) == Sgr(code) + (t + Sgr("0"));
    CleanSplitsAtEsc(t, Sgr("0"));
    CleanDropsLeadingSgr("0", []);
    assert Sgr("0") + [] == Sgr("0");
  }

  /** One pass only: deleting a sequence can join its neighbours into a new one. */
  lemma CleanIsOnePass()
    ensures var s := [ESC, '['] + Sgr("1") + "1m";
            Clean(s) == Sgr("1") && Clean(Clean(s)) == []
  {
    var s := [ESC, '['] + Sgr("1") + "1m";
    assert SgrPrefix(s).None? by {
      assert DigitRun(s, 2) == 2;
    }
    assert SgrPrefix(s[1..]).None?;
    assert s[2..][..4] == Sgr("1");
    assert SgrPrefix(s[2..]) == Some(4);
    assert s[2..][4..] == "1m";
    assert Clean("1m") == "1m" by {
      assert SgrPrefix("1m").None?;
      assert SgrPrefix("m").None?;
    }
    assert Clean(s) == [s[0]] + Clean(s[1..]);
    assert s[1..][1..] == s[2..];
    assert Clean(s[1..]) == [s[1]] + Clean(s[2..]);
    assert Clean(s[2..]) == Clean("1m");
    assert Clean(s) == [ESC, '['] + "1m";
    assert Clean(s) == Sgr("1");
    CleanDropsLeadingSgr("1", []);
    assert Sgr("1") + [] == Sgr("1");
  }
}
