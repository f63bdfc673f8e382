/** The email pattern of the identity schema, `/.+\@.+\..+/`, tested the
    way `RegExp.prototype.test` does: unanchored, so it succeeds when some
    substring matches. */
module Email {

  /** Characters the regular-expression `.` does not match (no `s` flag). */
  predicate LineTerminator(c: char)
  {
    c == '\n' || c == '\r' || c == '\U{2028}' || c == '\U{2029}'
  }

  /** Every character of `s[lo..hi]` is matched by `.`. */
  predicate AllDots(s: string, lo: int, hi: int)
    requires 0 <= lo <= hi <= |s|
  {
    forall k :: lo <= k < hi ==> !LineTerminator(s[k])
  }

  /** `s[a..e]` is matched by `.+@.+\..+` with the `@` at `b` and the
      literal `.` at `d`. */
  predicate MatchAt(s: string, a: int, b: int, d: int, e: int)
    requires 0 <= a <= b < d < e <= |s|
  {
    && a < b && AllDots(s, a, b)
    && s[b] == '@'
    && b + 1 < d && AllDots(s, b + 1, d)
    && s[d] == '.'
    && d + 1 < e && AllDots(s, d + 1, e)
  }

  /** The regular expression matches somewhere in `s`. */
  ghost predicate PatternFound(s: string)
  {
    exists a, b, d, e :: 0 <= a <= b < d < e <= |s| && MatchAt(s, a, b, d, e)
  }

  /** "`X@Y` with both parts non-empty and all of `Y` matched by `.`
      ends at position `i`": some `@` at `b` has a dot-character before it
      and `s[b+1..i]` is a non-empty run of dot-characters. */
  ghost predicate Armed(s: string, i: int)
    requires 0 <= i <= |s|
  {
    exists b :: 1 <= b && b + 1 < i && s[b] == '@' && !LineTerminator(s[b - 1]) && AllDots(s, b + 1, i)
  }

  /** A single left-to-right scan: `armed` records `Armed(s, i)`. A match is
      reported at the first `.` that closes an armed `X@Y` and is followed by
      a dot-character. */
  function Scan(s: string, i: nat, armed: bool): bool
    requires i <= |s|
    decreases |s| - i
  {
    if i == |s| then false
    else if armed && s[i] == '.' && i + 1 < |s| && !LineTerminator(s[i + 1]) then true
    else
      var armedNext := !LineTerminator(s[i]) && (armed || (2 <= i && s[i - 1] == '@' && !LineTerminator(s[i - 2])));
      Scan(s, i + 1, armedNext)
  }

  /** The schema's `match` test on an email value. */
  function EmailMatches(s: string): (ok: bool)
    ensures ok <==> PatternFound(s)
  {
    ScanCorrect(s, 0, false);
    Scan(s, 0, false)
  }

  /** No match whose literal `.` sits before position `i`. */
  ghost predicate NoMatchBefore(s: string, i: int)
    requires 0 <= i <= |s|
  {
    forall a, b, d, e :: 0 <= a <= b < d < e <= |s| && d < i ==> !MatchAt(s, a, b, d, e)
  }

  lemma ArmedStep(s: string, i: nat)
    requires i < |s|
    ensures Armed(s, i + 1) <==>
      !LineTerminator(s[i]) && (Armed(s, i) || (2 <= i && s[i - 1] == '@' && !LineTerminator(s[i - 2])))
  {
  }

  /** A match with its literal `.` at `d` exists exactly when `X@Y` is armed
      at `d` and a dot-character follows. */
  lemma MatchEndingAt(s: string, d: nat)
    requires d < |s|
    ensures (exists a, b, e :: 0 <= a <= b < d < e <= |s| && MatchAt(s, a, b, d, e)) <==>
      (Armed(s, d) && s[d] == '.' && d + 1 < |s| && !LineTerminator(s[d + 1]))
  {
    if Armed(s, d) && s[d] == '.' && d + 1 < |s| && !LineTerminator(s[d + 1]) {
      var b :| 1 <= b && b + 1 < d && s[b] == '@' && !LineTerminator(s[b - 1]) && AllDots(s, b + 1, d);
      assert MatchAt(s, b - 1, b, d, d + 2);
    }
    if exists a, b, e :: 0 <= a <= b < d < e <= |s| && MatchAt(s, a, b, d, e) {
      var a, b, e :| 0 <= a <= b < d < e <= |s| && MatchAt(s, a, b, d, e);
      assert !LineTerminator(s[b - 1]);
      assert !LineTerminator(s[d + 1]);
    }
  }

  lemma {:induction false} ScanCorrect(s: string, i: nat, armed: bool)
    requires i <= |s|
    requires armed == Armed(s, i)
    requires NoMatchBefore(s, i)
    ensures Scan(s, i, armed) <==> PatternFound(s)
    decreases |s| - i
  {
    if i < |s| {
      MatchEndingAt(s, i);
      if armed && s[i] == '.' && i + 1 < |s| && !LineTerminator(s[i + 1]) {
        var a, b, e :| 0 <= a <= b < i < e <= |s| && MatchAt(s, a, b, i, e);
        assert PatternFound(s);
      } else {
        ArmedStep(s, i);
        assert NoMatchBefore(s, i + 1) by {
          forall a, b, d, e | 0 <= a <= b < d < e <= |s| && d < i + 1
            ensures !MatchAt(s, a, b, d, e)
          {
            if d == i && MatchAt(s, a, b, d, e) {
              assert false;
            }
          }
        }
        ScanCorrect(s, i + 1, !LineTerminator(s[i]) && (armed || (2 <= i && s[i - 1] == '@' && !LineTerminator(s[i - 2]))));
      }
    }
  }
}
