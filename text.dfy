/**
 * The handful of Python `str` operations the ingestion pipeline relies on:
 * substring membership (`p in s`), `lower()`, `isalnum()`, `strip()`,
 * `sep.join(parts)`, and `split(sep)` as the reference inverse of `join`.
 * Case mapping and the alphanumeric class are ASCII-only.
 */
module Text {

  /** p occurs in s starting at position i. */
  predicate OccursAt(s: string, p: string, i: nat)
  {
    i + |p| <= |s| && s[i..i + |p|] == p
  }

  /** Python's `p in s`: a left-to-right scan for an occurrence of p. */
  predicate Contains(s: string, p: string)
    decreases |s|
  {
    OccursAt(s, p, 0) || (|s| > 0 && Contains(s[1..], p))
  }

  /** The scan agrees with the positional definition of a substring. */
  lemma {:induction false} ContainsIff(s: string, p: string)
    ensures Contains(s, p) <==> exists i: nat :: OccursAt(s, p, i)
    decreases |s|
  {
    if Contains(s, p) {
      if !OccursAt(s, p, 0) {
        ContainsIff(s[1..], p);
        var i: nat :| OccursAt(s[1..], p, i);
        assert s[1..][i..i + |p|] == s[i + 1..i + 1 + |p|];
        assert OccursAt(s, p, i + 1);
      }
    }
    if exists i: nat :: OccursAt(s, p, i) {
      var i: nat :| OccursAt(s, p, i);
      if i > 0 {
        assert s[1..][i - 1..i - 1 + |p|] == s[i..i + |p|];
        assert OccursAt(s[1..], p, i - 1);
        ContainsIff(s[1..], p);
      }
    }
  }

  /** An occurrence inside x is still an occurrence once y is appended or prepended. */
  lemma ContainsInConcat(x: string, y: string, p: string)
    ensures Contains(x, p) ==> Contains(x + y, p)
    ensures Contains(y, p) ==> Contains(x + y, p)
  {
    ContainsIff(x, p);
    ContainsIff(y, p);
    ContainsIff(x + y, p);
    if Contains(x, p) {
      var i: nat :| OccursAt(x, p, i);
      assert (x + y)[i..i + |p|] == x[i..i + |p|];
      assert OccursAt(x + y, p, i);
    }
    if Contains(y, p) {
      var i: nat :| OccursAt(y, p, i);
      assert (x + y)[|x| + i..|x| + i + |p|] == y[i..i + |p|];
      assert OccursAt(x + y, p, |x| + i);
    }
  }

  /** p is not in s when one of its characters does not occur in s at all. */
  lemma AbsentByCharAt(s: string, p: string, j: nat)
    requires j < |p| && p[j] !in s
    ensures !Contains(s, p)
  {
    forall i: nat ensures !OccursAt(s, p, i) {
      if i + |p| <= |s| {
        assert s[i..i + |p|][j] == s[i + j] != p[j];
      }
    }
    ContainsIff(s, p);
  }

  /** `str.lower()` on one character (ASCII letters only). */
  function LowerChar(c: char): char
  {
    if 'A' <= c <= 'Z' then (c as int + 32) as char else c
  }

  /** `str.lower()`, character by character. */
  function Lower(s: string): string
  {
    seq(|s|, i requires 0 <= i < |s| => LowerChar(s[i]))
  }

  /** `str.isalnum()` on one character (ASCII letters and digits only). */
  predicate IsAlnum(c: char)
  {
    '0' <= c <= '9' || 'a' <= c <= 'z' || 'A' <= c <= 'Z'
  }

  /** `str.isspace()` on one character: the code points Python's `strip()` removes. */
  predicate IsSpace(c: char)
  {
    var n := c as int;
    (0x09 <= n <= 0x0D) || (0x1C <= n <= 0x20) || n == 0x85 || n == 0xA0 || n == 0x1680
    || (0x2000 <= n <= 0x200A) || n == 0x2028 || n == 0x2029 || n == 0x202F
    || n == 0x205F || n == 0x3000
  }

  /** Every character of s is whitespace (the empty string included). */
  predicate IsBlank(s: string)
  {
    forall i :: 0 <= i < |s| ==> IsSpace(s[i])
  }

  function TrimStart(s: string): string
    decreases |s|
  {
    if |s| > 0 && IsSpace(s[0]) then TrimStart(s[1..]) else s
  }

  function TrimEnd(s: string): string
    decreases |s|
  {
    if |s| > 0 && IsSpace(s[|s| - 1]) then TrimEnd(s[..|s| - 1]) else s
  }

  /** `str.strip()` with no argument. */
  function Strip(s: string): string
  {
    TrimEnd(TrimStart(s))
  }

  lemma {:induction false} TrimStartEmptyOrSolid(s: string)
    ensures TrimStart(s) == [] <==> IsBlank(s)
    ensures TrimStart(s) != [] ==> !IsSpace(TrimStart(s)[0])
    decreases |s|
  {
    if |s| > 0 && IsSpace(s[0]) {
      TrimStartEmptyOrSolid(s[1..]);
      assert IsBlank(s[1..]) ==> IsBlank(s) by {
        if IsBlank(s[1..]) {
          forall i | 0 <= i < |s| ensures IsSpace(s[i]) {
            if i > 0 { assert s[i] == s[1..][i - 1]; }
          }
        }
      }
    }
  }

  lemma {:induction false} TrimEndKeepsSolidHead(s: string)
    requires |s| > 0 && !IsSpace(s[0])
    ensures TrimEnd(s) != []
    decreases |s|
  {
    if IsSpace(s[|s| - 1]) {
      TrimEndKeepsSolidHead(s[..|s| - 1]);
    }
  }

  /** `s.strip()` is falsy exactly when s consists of whitespace only. */
  lemma StripEmptyIffBlank(s: string)
    ensures Strip(s) == [] <==> IsBlank(s)
  {
    TrimStartEmptyOrSolid(s);
    if TrimStart(s) != [] {
      TrimEndKeepsSolidHead(TrimStart(s));
    }
  }

  /** Python's `sep.join(parts)`. */
  function Join(sep: string, parts: seq<string>): string
    decreases |parts|
  {
    if |parts| == 0 then ""
    else if |parts| == 1 then parts[0]
    else parts[0] + sep + Join(sep, parts[1..])
  }

  /** Every part is a substring of the joined text. */
  lemma {:induction false} JoinContainsParts(sep: string, parts: seq<string>, k: nat)
    requires k < |parts|
    ensures Contains(Join(sep, parts), parts[k])
    decreases |parts|
  {
    if |parts| == 1 {
      ContainsIff(parts[0], parts[0]);
      assert OccursAt(parts[0], parts[0], 0);
    } else if k == 0 {
      ContainsIff(parts[0], parts[0]);
      assert OccursAt(parts[0], parts[0], 0);
      ContainsInConcat(parts[0], sep + Join(sep, parts[1..]), parts[0]);
      assert parts[0] + sep + Join(sep, parts[1..]) == parts[0] + (sep + Join(sep, parts[1..]));
    } else {
      JoinContainsParts(sep, parts[1..], k - 1);
      ContainsInConcat(parts[0] + sep, Join(sep, parts[1..]), parts[k]);
    }
  }

  /** Python's `s.split(c)` for a one-character separator; the reference inverse of Join. */
  function SplitOn(s: string, c: char): (pieces: seq<string>)
    ensures |pieces| >= 1
    decreases |s|
  {
    if |s| == 0 then [""]
    else
      var rest := SplitOn(s[1..], c);
      if s[0] == c then [""] + rest else [[s[0]] + rest[0]] + rest[1..]
  }

  lemma {:induction false} SplitOnWithout(a: string, t: string, c: char)
    requires c !in a
    ensures SplitOn(a + t, c)[0] == a + SplitOn(t, c)[0]
    ensures SplitOn(a + t, c)[1..] == SplitOn(t, c)[1..]
    decreases |a|
  {
    if |a| > 0 {
      assert (a + t)[1..] == a[1..] + t;
      assert (a + t)[0] == a[0];
      SplitOnWithout(a[1..], t, c);
      assert [a[0]] + a[1..] == a;
    } else {
      assert a + t == t;
    }
  }

  /**
   * Joining newline-free paragraphs with a newline loses nothing: splitting
   * the text on the newline gives the paragraphs back.
   */
  lemma {:induction false} SplitJoinRoundTrip(parts: seq<string>, c: char)
    requires |parts| > 0
    requires forall k :: 0 <= k < |parts| ==> c !in parts[k]
    ensures SplitOn(Join([c], parts), c) == parts
    decreases |parts|
  {
    if |parts| == 1 {
      SplitOnWithout(parts[0], "", c);
      assert parts[0] + "" == parts[0];
    } else {
      var tail := Join([c], parts[1..]);
      SplitJoinRoundTrip(parts[1..], c);
      assert Join([c], parts) == parts[0] + ([c] + tail);
      SplitOnWithout(parts[0], [c] + tail, c);
      assert ([c] + tail)[1..] == tail && ([c] + tail)[0] == c;
      var whole := SplitOn(Join([c], parts), c);
      assert SplitOn([c] + tail, c) == [""] + parts[1..];
      assert whole[0] == parts[0] + "" == parts[0];
      assert whole[1..] == parts[1..];
      assert whole == [whole[0]] + whole[1..];
      assert parts == [parts[0]] + parts[1..];
    }
  }
}
