/** Shared vocabulary of the backend model: optional values and the Python
    string operations the backend leans on (`strip`, `endswith`, prefix
    slicing, `join`, and case-insensitive equality). */
module Common {

  datatype Option<+T> = None | Some(value: T)

  /** Python truthiness of an optional string: present and non-empty. */
  predicate Truthy(v: Option<string>)
  {
    v.Some? && v.value != []
  }

  function Min(a: int, b: int): int
  {
    if a <= b then a else b
  }

  // ---------------------------------------------------------------------------
  // Whitespace and str.strip()
  // ---------------------------------------------------------------------------

  /** The characters Python's `str.isspace` accepts, which are exactly the
      characters `str.strip()` with no argument removes. */
  predicate IsSpace(c: char)
  {
    || ('\t' <= c <= '\r')
    || ('\U{1c}' <= c <= '\U{1f}')
    || c == ' ' || c == '\U{85}' || c == '\U{a0}' || c == '\U{1680}'
    || ('\U{2000}' <= c <= '\U{200a}')
    || c == '\U{2028}' || c == '\U{2029}' || c == '\U{202f}' || c == '\U{205f}'
    || c == '\U{3000}'
  }

  /** Every character is whitespace (the empty string included). */
  predicate IsBlank(s: string)
  {
    forall i :: 0 <= i < |s| ==> IsSpace(s[i])
  }

  function TrimStart(s: string): string
  {
    if |s| > 0 && IsSpace(s[0]) then TrimStart(s[1..]) else s
  }

  function TrimEnd(s: string): string
  {
    if |s| > 0 && IsSpace(s[|s| - 1]) then TrimEnd(s[..|s| - 1]) else s
  }

  /** Python's `s.strip()`. */
  function Strip(s: string): string
  {
    TrimEnd(TrimStart(s))
  }

  lemma {:induction false} TrimStartEmptyIffBlank(s: string)
    ensures TrimStart(s) == [] <==> IsBlank(s)
    decreases |s|
  {
    if |s| > 0 && IsSpace(s[0]) {
      TrimStartEmptyIffBlank(s[1..]);
      assert IsBlank(s[1..]) ==> IsBlank(s) by {
        if IsBlank(s[1..]) {
          forall i | 0 <= i < |s| ensures IsSpace(s[i]) {
            if i > 0 { assert s[i] == s[1..][i - 1]; }
          }
        }
      }
    } else if |s| > 0 {
      assert !IsSpace(s[0]);
    }
  }

  lemma {:induction false} TrimStartHead(s: string)
    requires TrimStart(s) != []
    ensures !IsSpace(TrimStart(s)[0])
    decreases |s|
  {
    if |s| > 0 && IsSpace(s[0]) {
      TrimStartHead(s[1..]);
    }
  }

  lemma {:induction false} TrimEndKeepsSolidHead(t: string)
    requires |t| > 0 && !IsSpace(t[0])
    ensures TrimEnd(t) != []
    decreases |t|
  {
    if IsSpace(t[|t| - 1]) {
      assert |t| > 1;
      TrimEndKeepsSolidHead(t[..|t| - 1]);
    }
  }

  /** `s.strip()` is falsy exactly when `s` is empty or all whitespace. */
  lemma StripEmptyIffBlank(s: string)
    ensures Strip(s) == [] <==> IsBlank(s)
  {
    TrimStartEmptyIffBlank(s);
    var t := TrimStart(s);
    if t != [] {
      TrimStartHead(s);
      TrimEndKeepsSolidHead(t);
    }
  }

  // ---------------------------------------------------------------------------
  // Suffixes, prefixes, case folding
  // ---------------------------------------------------------------------------

  /** Python's `s.endswith(suffix)`. */
  predicate EndsWith(s: string, suffix: string)
  {
    |suffix| <= |s| && s[|s| - |suffix|..] == suffix
  }

  /** Python's `s[:n]` for a non-negative `n`. */
  function Take(s: string, n: nat): (r: string)
    ensures |r| == Min(n, |s|)
    ensures r == s[..|r|]
    ensures |s| <= n ==> r == s
  {
    s[..Min(n, |s|)]
  }

  /** ASCII-only lower-casing, which is what SQLite's `LIKE` folds. */
  function LowerChar(c: char): char
  {
    if 'A' <= c <= 'Z' then (c as int + 32) as char else c
  }

  function Lower(s: string): (r: string)
    ensures |r| == |s|
    ensures forall i :: 0 <= i < |s| ==> r[i] == LowerChar(s[i])
  {
    seq(|s|, i requires 0 <= i < |s| => LowerChar(s[i]))
  }

  /** Case-insensitive equality as `question__iexact` compares. */
  predicate EqualsIgnoringCase(a: string, b: string)
  {
    |a| == |b| && forall i :: 0 <= i < |a| ==> LowerChar(a[i]) == LowerChar(b[i])
  }

  /** Case-insensitive equality is equality after lower-casing both sides. */
  lemma EqualsIgnoringCaseIffLowerEqual(a: string, b: string)
    ensures EqualsIgnoringCase(a, b) <==> Lower(a) == Lower(b)
  {
    if Lower(a) == Lower(b) {
      forall i | 0 <= i < |a| ensures LowerChar(a[i]) == LowerChar(b[i]) {
        assert Lower(a)[i] == Lower(b)[i];
      }
    }
  }

  // ---------------------------------------------------------------------------
  // str.join
  // ---------------------------------------------------------------------------

  /** Python's `sep.join(parts)`. */
  function Join(parts: seq<string>, sep: string): string
  {
    if |parts| == 0 then []
    else if |parts| == 1 then parts[0]
    else parts[0] + sep + Join(parts[1..], sep)
  }

  /** Where `parts[i]` starts inside `Join(parts, sep)`: the lengths of the
      earlier parts, each followed by one separator. */
  function JoinOffset(parts: seq<string>, sep: string, i: nat): nat
    requires i <= |parts|
  {
    if i == 0 then 0 else |parts[0]| + |sep| + JoinOffset(parts[1..], sep, i - 1)
  }

  /** A slice of the second half of a concatenation, shifted past the first. */
  lemma SliceAfterPrefix(p: string, b: string, lo: nat, hi: nat)
    requires lo <= hi <= |b|
    ensures (p + b)[|p| + lo..|p| + hi] == b[lo..hi]
  {
    assert forall k :: 0 <= k < hi - lo ==> (p + b)[|p| + lo..|p| + hi][k] == b[lo..hi][k];
  }

  /** The joined string holds every part in order, at its offset, and the
      last part ends the string. */
  lemma {:induction false} JoinPartAt(parts: seq<string>, sep: string, i: nat)
    requires i < |parts|
    ensures JoinOffset(parts, sep, i) + |parts[i]| <= |Join(parts, sep)|
    ensures Join(parts, sep)[JoinOffset(parts, sep, i)..JoinOffset(parts, sep, i) + |parts[i]|] == parts[i]
    ensures i + 1 == |parts| ==> JoinOffset(parts, sep, i) + |parts[i]| == |Join(parts, sep)|
    decreases i
  {
    if |parts| == 1 {
    } else if i == 0 {
      var j := Join(parts, sep);
      assert j == parts[0] + (sep + Join(parts[1..], sep));
      assert j[..|parts[0]|] == parts[0];
    } else {
      var rest := parts[1..];
      JoinPartAt(rest, sep, i - 1);
      var o := JoinOffset(rest, sep, i - 1);
      assert Join(parts, sep) == (parts[0] + sep) + Join(rest, sep);
      assert JoinOffset(parts, sep, i) == |parts[0] + sep| + o;
      assert parts[i] == rest[i - 1];
      SliceAfterPrefix(parts[0] + sep, Join(rest, sep), o, o + |parts[i]|);
    }
  }

  /** Exactly one separator follows every part but the last. */
  lemma {:induction false} JoinSeparatorAfter(parts: seq<string>, sep: string, i: nat)
    requires i + 1 < |parts|
    ensures JoinOffset(parts, sep, i) + |parts[i]| + |sep| <= |Join(parts, sep)|
    ensures Join(parts, sep)[JoinOffset(parts, sep, i) + |parts[i]|..JoinOffset(parts, sep, i) + |parts[i]| + |sep|] == sep
    decreases i
  {
    var rest := parts[1..];
    if i == 0 {
      var j := Join(parts, sep);
      assert j == parts[0] + sep + Join(rest, sep);
      assert j[|parts[0]|..|parts[0]| + |sep|] == sep;
    } else {
      JoinSeparatorAfter(rest, sep, i - 1);
      var o := JoinOffset(rest, sep, i - 1);
      assert Join(parts, sep) == (parts[0] + sep) + Join(rest, sep);
      assert JoinOffset(parts, sep, i) == |parts[0] + sep| + o;
      assert parts[i] == rest[i - 1];
      SliceAfterPrefix(parts[0] + sep, Join(rest, sep), o + |parts[i]|, o + |parts[i]| + |sep|);
    }
  }
}
