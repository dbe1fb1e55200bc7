/**
 * The Kotlin/JVM string operations the core relies on, stated over
 * `seq<char>`: `Char.isWhitespace`, `trim`, `isBlank`, `split("~~")`,
 * `contains`, `String.compareTo` and the line splitting of
 * `BufferedReader.lineSequence()`.
 */
module KotlinText {

  /** The backup field separator. */
  const Sep: string := "~~"

  /**
   * Kotlin's `Char.isWhitespace()`: Java's whitespace controls, the
   * information separators U+001C..U+001F and every Unicode space,
   * line or paragraph separator (the no-break spaces included).
   */
  predicate IsWhitespace(c: char) {
    || c == '\t' || c == '\n' || c == '\U{000B}' || c == '\U{000C}' || c == '\r'
    || ('\U{001C}' <= c <= '\U{001F}')
    || c == ' ' || c == '\U{00A0}' || c == '\U{1680}'
    || ('\U{2000}' <= c <= '\U{200A}')
    || c == '\U{2028}' || c == '\U{2029}' || c == '\U{202F}' || c == '\U{205F}' || c == '\U{3000}'
  }

  /**
   * The no-break spaces count as whitespace for Kotlin (they are not for
   * Java's `Character.isWhitespace`); zero-width spaces and '~' do not.
   */
  lemma IsWhitespaceNoBreakSpaces()
    ensures IsWhitespace('\U{00A0}') && IsWhitespace('\U{2007}') && IsWhitespace('\U{202F}')
    ensures !IsWhitespace('\U{200B}') && !IsWhitespace('\U{FEFF}') && !IsWhitespace('~')
  {
  }

  predicate NoTilde(s: string) {
    forall i :: 0 <= i < |s| ==> s[i] != '~'
  }

  predicate NoLineBreak(s: string) {
    forall i :: 0 <= i < |s| ==> s[i] != '\n' && s[i] != '\r'
  }

  /** `isBlank()`: empty or whitespace only. */
  predicate IsBlank(s: string) {
    forall i :: 0 <= i < |s| ==> IsWhitespace(s[i])
  }

  /** Text is blank exactly when both of its pieces are. */
  lemma {:induction false} IsBlankConcat(a: string, b: string)
    ensures IsBlank(a + b) <==> IsBlank(a) && IsBlank(b)
  {
    if IsBlank(a + b) {
      assert forall i :: 0 <= i < |a| ==> a[i] == (a + b)[i];
      assert forall i :: 0 <= i < |b| ==> b[i] == (a + b)[|a| + i];
    }
  }

  // ---------------------------------------------------------------------------
  // trim()
  // ---------------------------------------------------------------------------

  function TrimStart(s: string): (r: string)
    ensures |r| <= |s|
    ensures r == [] || !IsWhitespace(r[0])
  {
    if s != [] && IsWhitespace(s[0]) then TrimStart(s[1..]) else s
  }

  /** `TrimStart` drops a whitespace prefix and keeps the rest. */
  lemma {:induction false} TrimStartDropsWhitespace(s: string)
    ensures TrimStart(s) == s[|s| - |TrimStart(s)|..]
    ensures forall i :: 0 <= i < |s| - |TrimStart(s)| ==> IsWhitespace(s[i])
    decreases |s|
  {
    if s != [] && IsWhitespace(s[0]) {
      TrimStartDropsWhitespace(s[1..]);
    }
  }

  function TrimEnd(s: string): (r: string)
    ensures r <= s
    ensures r == [] || !IsWhitespace(r[|r| - 1])
  {
    if s != [] && IsWhitespace(s[|s| - 1]) then TrimEnd(s[..|s| - 1]) else s
  }

  /** What `TrimEnd` drops is whitespace. */
  lemma {:induction false} TrimEndDropsWhitespace(s: string)
    ensures forall i :: |TrimEnd(s)| <= i < |s| ==> IsWhitespace(s[i])
    decreases |s|
  {
    if s != [] && IsWhitespace(s[|s| - 1]) {
      TrimEndDropsWhitespace(s[..|s| - 1]);
    }
  }

  /** `trim()`: drops leading and trailing whitespace and nothing else. */
  function Trim(s: string): (r: string)
    ensures r == [] || (!IsWhitespace(r[0]) && !IsWhitespace(r[|r| - 1]))
    ensures r == [] <==> IsBlank(s)
  {
    var t := TrimStart(s);
    TrimStartDropsWhitespace(s);
    var r := TrimEnd(t);
    TrimEndDropsWhitespace(t);
    assert r != [] ==> r[0] == t[0];
    assert r == [] ==> IsBlank(t) && IsBlank(s);
    assert r != [] ==> !IsWhitespace(s[|s| - |t|]);
    r
  }

  /**
   * What `Trim` keeps is a slice of its input, and what it cuts off on
   * either side is whitespace: with the ensures of `Trim` (the slice
   * neither starts nor ends with whitespace) this pins the result down.
   */
  lemma {:induction false} TrimIsOuterCut(s: string) returns (i: nat, j: nat)
    ensures i <= j <= |s|
    ensures Trim(s) == s[i..j]
    ensures IsBlank(s[..i]) && IsBlank(s[j..])
  {
    var t := TrimStart(s);
    var r := TrimEnd(t);
    assert Trim(s) == r;
    i := |s| - |t|;
    j := i + |r|;
    assert t == s[i..] by {
      TrimStartDropsWhitespace(s);
    }
    assert s[i..j] == r by {
      assert r == t[..|r|];
    }
    assert IsBlank(s[..i]) by {
      TrimStartDropsWhitespace(s);
    }
    assert IsBlank(s[j..]) by {
      TrimEndDropsWhitespace(t);
      assert s[j..] == t[|r|..];
    }
  }

  lemma TrimOfTrimmed(s: string)
    requires s == [] || (!IsWhitespace(s[0]) && !IsWhitespace(s[|s| - 1]))
    ensures Trim(s) == s
  {
  }

  /** A line with no surrounding whitespace, ended by "\n", trims to itself. */
  lemma {:induction false} TrimNewlineTerminated(j: string)
    requires j != [] && !IsWhitespace(j[0]) && !IsWhitespace(j[|j| - 1])
    ensures Trim(j + "\n") == j
  {
    var s := j + "\n";
    assert TrimStart(s) == s;
    assert s[..|s| - 1] == j;
    assert TrimEnd(s) == TrimEnd(j) == j;
  }

  lemma {:induction false} TrimIdempotent(s: string)
    ensures Trim(Trim(s)) == Trim(s)
  {
    TrimOfTrimmed(Trim(s));
  }

  // ---------------------------------------------------------------------------
  // split("~~") and its inverse
  // ---------------------------------------------------------------------------

  /**
   * `split("~~")`: the parts between the separator occurrences found
   * scanning left to right, non-overlapping; trailing empty parts are
   * kept. Reading `s` from the left, a separator at position 0 ends the
   * first part; otherwise the first character belongs to the first part
   * of the rest.
   */
  function Split(s: string): (parts: seq<string>)
    ensures |parts| >= 1
  {
    if |s| < 2 then [s]
    else if s[0] == '~' && s[1] == '~' then [[]] + Split(s[2..])
    else
      var rest := Split(s[1..]);
      [[s[0]] + rest[0]] + rest[1..]
  }

  /** The parts joined back with the separator. */
  function Join(parts: seq<string>): string
    requires |parts| >= 1
  {
    if |parts| == 1 then parts[0] else parts[0] + Sep + Join(parts[1..])
  }

  lemma {:induction false} JoinAppend(a: seq<string>, b: seq<string>)
    requires |a| >= 1 && |b| >= 1
    ensures Join(a + b) == Join(a) + Sep + Join(b)
    decreases |a|
  {
    if |a| > 1 {
      JoinAppend(a[1..], b);
      assert (a + b)[1..] == a[1..] + b;
    } else {
      assert (a + b)[1..] == b;
    }
  }

  /** Occurrences of the separator, counted the way `Split` consumes them. */
  function SepCount(s: string): nat {
    if |s| < 2 then 0
    else if s[0] == '~' && s[1] == '~' then 1 + SepCount(s[2..])
    else SepCount(s[1..])
  }

  predicate ContainsSep(s: string) {
    exists i :: 0 <= i < |s| - 1 && s[i] == '~' && s[i + 1] == '~'
  }

  lemma {:induction false} SplitLength(s: string)
    ensures |Split(s)| == SepCount(s) + 1
    decreases |s|
  {
    if |s| >= 2 {
      if s[0] == '~' && s[1] == '~' {
        SplitLength(s[2..]);
      } else {
        SplitLength(s[1..]);
      }
    }
  }

  /** Joining the parts of a split gives back the string. */
  lemma {:induction false} JoinSplit(s: string)
    ensures Join(Split(s)) == s
    decreases |s|
  {
    if |s| >= 2 {
      if s[0] == '~' && s[1] == '~' {
        JoinSplit(s[2..]);
        assert s == Sep + s[2..];
      } else {
        JoinSplit(s[1..]);
        JoinSplitOther(s);
      }
    }
  }

  /** The step of `JoinSplit` for a first character that starts no separator. */
  lemma {:induction false} JoinSplitOther(s: string)
    requires |s| >= 2 && !(s[0] == '~' && s[1] == '~')
    requires Join(Split(s[1..])) == s[1..]
    ensures Join(Split(s)) == s
  {
    var rest := Split(s[1..]);
    var parts := Split(s);
    assert parts == [[s[0]] + rest[0]] + rest[1..];
    assert Join(parts) == [s[0]] + Join(rest) by {
      if |rest| > 1 {
        assert parts[1..] == rest[1..];
        assert Join(rest) == rest[0] + Sep + Join(rest[1..]);
      }
    }
    assert s == [s[0]] + s[1..];
  }

  /** No part of a split contains the separator. */
  lemma {:induction false} SplitPartsLackSep(s: string)
    ensures forall k :: 0 <= k < |Split(s)| ==> !ContainsSep(Split(s)[k])
    decreases |s|
  {
    if |s| >= 2 {
      if s[0] == '~' && s[1] == '~' {
        SplitPartsLackSep(s[2..]);
      } else {
        var rest := Split(s[1..]);
        SplitPartsLackSep(s[1..]);
        var first := [s[0]] + rest[0];
        forall i | 0 <= i < |first| - 1 ensures !(first[i] == '~' && first[i + 1] == '~') {
          if i == 0 {
            if !(|s[1..]| >= 2 && s[1..][0] == '~' && s[1..][1] == '~') {
              SplitFirstChar(s[1..]);
            }
          } else {
            assert first[i] == rest[0][i - 1] && first[i + 1] == rest[0][i];
          }
        }
        forall k | 0 <= k < |Split(s)| ensures !ContainsSep(Split(s)[k]) {
          if k > 0 {
            assert Split(s)[k] == rest[k];
          }
        }
      }
    }
  }

  /**
   * The split is leftmost: no part but the last ends in '~', since a
   * `~` followed by the separator would have been taken as the separator
   * one position earlier. With `JoinSplit` and `SplitPartsLackSep` this
   * fixes the parts of every string.
   */
  lemma {:induction false} SplitLeftmost(s: string)
    ensures forall k :: 0 <= k < |Split(s)| - 1 ==>
      Split(s)[k] == [] || Split(s)[k][|Split(s)[k]| - 1] != '~'
    decreases |s|
  {
    if |s| >= 2 {
      if s[0] == '~' && s[1] == '~' {
        SplitLeftmost(s[2..]);
        forall k | 0 < k < |Split(s)| - 1
          ensures Split(s)[k] == [] || Split(s)[k][|Split(s)[k]| - 1] != '~'
        {
          assert Split(s)[k] == Split(s[2..])[k - 1];
        }
      } else {
        var rest := Split(s[1..]);
        SplitLeftmost(s[1..]);
        SplitFirstEmpty(s[1..]);
        forall k | 0 <= k < |Split(s)| - 1
          ensures Split(s)[k] == [] || Split(s)[k][|Split(s)[k]| - 1] != '~'
        {
          if k > 0 {
            assert Split(s)[k] == rest[k];
          } else if rest[0] == [] {
            assert Split(s)[0] == [s[0]];
          } else {
            assert Split(s)[0][|Split(s)[0]| - 1] == rest[0][|rest[0]| - 1];
          }
        }
      }
    }
  }

  /**
   * The parts a leftmost split can produce: at least one, none holding
   * the separator, none but the last ending in '~'.
   */
  predicate SplitShaped(parts: seq<string>) {
    && |parts| >= 1
    && (forall k :: 0 <= k < |parts| ==> !ContainsSep(parts[k]))
    && (forall k :: 0 <= k < |parts| - 1 ==> parts[k] == [] || parts[k][|parts[k]| - 1] != '~')
  }

  /** A string without the separator splits into itself alone. */
  lemma {:induction false} SplitNoSep(s: string)
    requires !ContainsSep(s)
    ensures Split(s) == [s]
    decreases |s|
  {
    if |s| >= 2 {
      assert !(s[0] == '~' && s[1] == '~');
      assert !ContainsSep(s[1..]) by {
        forall i | 0 <= i < |s[1..]| - 1 ensures !(s[1..][i] == '~' && s[1..][i + 1] == '~') {
          assert s[1..][i] == s[i + 1] && s[1..][i + 1] == s[i + 2];
        }
      }
      SplitNoSep(s[1..]);
      assert s == [s[0]] + s[1..];
    }
  }

  /**
   * Split is the only way to cut a string into shaped parts: splitting
   * the join of shaped parts gives them back. With `SplitLeftmost` and
   * `SplitPartsLackSep`, this determines `Split(s)` for every `s`.
   */
  lemma {:induction false} SplitUnique(parts: seq<string>)
    requires SplitShaped(parts)
    ensures Split(Join(parts)) == parts
    decreases |Join(parts)|
  {
    if |parts| == 1 {
      SplitNoSep(parts[0]);
    } else if parts[0] == [] {
      var rest := parts[1..];
      assert SplitShaped(rest) by {
        forall k | 0 <= k < |rest| ensures !ContainsSep(rest[k]) {
          assert rest[k] == parts[k + 1];
        }
        forall k | 0 <= k < |rest| - 1 ensures rest[k] == [] || rest[k][|rest[k]| - 1] != '~' {
          assert rest[k] == parts[k + 1];
        }
      }
      assert Join(parts) == Sep + Join(rest);
      SplitUnique(rest);
      SplitSepCons(Join(rest));
      assert parts == [[]] + rest;
    } else {
      SplitUniqueStep(parts);
    }
  }

  /** `Split(s)` is exactly the shaped cut of `s`: shaped parts that join back to `s`. */
  lemma {:induction false} SplitCharacterised(s: string, parts: seq<string>)
    ensures Split(s) == parts <==> SplitShaped(parts) && Join(parts) == s
  {
    if Split(s) == parts {
      SplitPartsLackSep(s);
      SplitLeftmost(s);
      JoinSplit(s);
    }
    if SplitShaped(parts) && Join(parts) == s {
      SplitUnique(parts);
    }
  }

  /** The step of `SplitUnique` for a non-empty first part among several. */
  lemma {:induction false} SplitUniqueStep(parts: seq<string>)
    requires SplitShaped(parts) && |parts| > 1 && parts[0] != []
    ensures Split(Join(parts)) == parts
    decreases |Join(parts)|, 0
  {
    var c, x := parts[0][0], parts[0][1..];
    var tail := [x] + parts[1..];
    assert parts[0] == [c] + x;
    assert Join(parts) == [c] + Join(tail) by {
      assert Join(parts) == parts[0] + Sep + Join(parts[1..]);
      assert tail[1..] == parts[1..];
    }
    assert SplitShaped(tail) by {
      assert !ContainsSep(x) by {
        forall i | 0 <= i < |x| - 1 ensures !(x[i] == '~' && x[i + 1] == '~') {
          assert x[i] == parts[0][i + 1] && x[i + 1] == parts[0][i + 2];
        }
      }
      forall k | 0 < k < |tail| ensures !ContainsSep(tail[k]) {
        assert tail[k] == parts[k];
      }
      forall k | 0 < k < |tail| - 1 ensures tail[k] == [] || tail[k][|tail[k]| - 1] != '~' {
        assert tail[k] == parts[k];
      }
    }
    SplitUnique(tail);
    var s := Join(parts);
    assert !(s[0] == '~' && s[1] == '~') by {
      if x == [] {
        assert parts[0][|parts[0]| - 1] == c;
      } else {
        assert s[1] == x[0] == parts[0][1];
      }
    }
    assert s[1..] == Join(tail);
    assert Split(s) == [[c] + x] + parts[1..];
    assert parts == [[c] + x] + parts[1..];
  }

  /** An empty first part followed by others comes from a leading separator. */
  lemma {:induction false} SplitFirstEmpty(s: string)
    ensures Split(s)[0] == [] && |Split(s)| > 1 ==> |s| >= 2 && s[0] == '~' && s[1] == '~'
  {
  }

  /** The first part starts with the first character, unless that begins a separator. */
  lemma SplitFirstChar(s: string)
    requires |s| >= 1
    requires |s| >= 2 ==> !(s[0] == '~' && s[1] == '~')
    ensures Split(s)[0] != [] && Split(s)[0][0] == s[0]
  {
  }

  /** A leading character other than '~' belongs to the first part. */
  lemma {:induction false} SplitConsOther(c: char, y: string)
    requires c != '~'
    ensures Split([c] + y) == [[c] + Split(y)[0]] + Split(y)[1..]
  {
    if y == [] {
      assert [c] + y == [c];
      assert [c] + Split(y)[0] == [c];
    } else {
      assert ([c] + y)[1..] == y;
    }
  }

  /** A leading separator ends an empty first part. */
  lemma {:induction false} SplitSepCons(y: string)
    ensures Split(Sep + y) == [[]] + Split(y)
  {
    assert (Sep + y)[2..] == y;
  }

  /** A tilde-free prefix is glued onto the first part. */
  lemma {:induction false} SplitTildeFreePrefix(p: string, x: string)
    requires NoTilde(p)
    ensures Split(p + x) == [p + Split(x)[0]] + Split(x)[1..]
    decreases |p|
  {
    if p != [] {
      var p' := p[1..];
      var rest := Split(p' + x);
      calc {
        Split(p + x);
        { assert p + x == [p[0]] + (p' + x); SplitConsOther(p[0], p' + x); }
        [[p[0]] + rest[0]] + rest[1..];
        { SplitTildeFreePrefix(p', x); }
        [[p[0]] + (p' + Split(x)[0])] + Split(x)[1..];
        { assert [p[0]] + (p' + Split(x)[0]) == p + Split(x)[0]; }
        [p + Split(x)[0]] + Split(x)[1..];
      }
    } else {
      var parts := Split(x);
      assert p + x == x;
      assert p + parts[0] == parts[0];
      assert [parts[0]] + parts[1..] == parts;
    }
  }

  /** Splitting the join of tilde-free parts gives the parts back. */
  lemma {:induction false} SplitJoin(parts: seq<string>)
    requires |parts| >= 1
    requires forall k :: 0 <= k < |parts| ==> NoTilde(parts[k])
    ensures Split(Join(parts)) == parts
    decreases |parts|
  {
    if |parts| == 1 {
      SplitTildeFreePrefix(parts[0], []);
      assert parts[0] + [] == parts[0];
    } else {
      var rest := Join(parts[1..]);
      SplitJoin(parts[1..]);
      SplitSepCons(rest);
      SplitTildeFreePrefix(parts[0], Sep + rest);
      assert parts[0] + Sep + rest == parts[0] + (Sep + rest);
      assert parts[0] + [] == parts[0];
    }
  }

  // The separator count is what makes a line with a separator inside a
  // field fall apart into too many parts.

  lemma {:induction false} SepCountDropFirst(s: string)
    requires |s| >= 1
    ensures SepCount(s[1..]) <= SepCount(s) <= SepCount(s[1..]) + 1
    decreases |s|
  {
    if |s| >= 2 && s[0] == '~' && s[1] == '~' {
      SepCountDropFirst(s[1..]);
      assert s[1..][1..] == s[2..];
    }
  }

  lemma {:induction false} SepCountConcat(a: string, b: string)
    ensures SepCount(a + b) >= SepCount(a) + SepCount(b)
    decreases |a|
  {
    if |a| == 0 {
      assert a + b == b;
    } else if |a| == 1 {
      SepCountDropFirst(a + b);
      assert (a + b)[1..] == b;
    } else if a[0] == '~' && a[1] == '~' {
      SepCountConcat(a[2..], b);
      assert (a + b)[2..] == a[2..] + b;
    } else {
      SepCountConcat(a[1..], b);
      assert (a + b)[1..] == a[1..] + b;
    }
  }

  lemma {:induction false} ContainsSepCount(s: string)
    requires ContainsSep(s)
    ensures SepCount(s) >= 1
  {
    var i :| 0 <= i < |s| - 1 && s[i] == '~' && s[i + 1] == '~';
    assert s == s[..i] + (Sep + s[i + 2..]);
    SepCountConcat(s[..i], Sep + s[i + 2..]);
    SepCountConcat(Sep, s[i + 2..]);
  }

  lemma {:induction false} SepCountJoin(parts: seq<string>, k: nat)
    requires k < |parts|
    ensures SepCount(Join(parts)) >= |parts| - 1 + SepCount(parts[k])
    decreases |parts|
  {
    if |parts| > 1 {
      var rest := Join(parts[1..]);
      assert Join(parts) == (parts[0] + Sep) + rest;
      SepCountConcat(parts[0] + Sep, rest);
      SepCountConcat(parts[0], Sep);
      if k == 0 {
        SepCountJoin(parts[1..], 0);
      } else {
        SepCountJoin(parts[1..], k - 1);
      }
    }
  }

  lemma {:induction false} SepCountAppendOther(t: string, c: char)
    requires c != '~'
    ensures SepCount(t + [c]) == SepCount(t)
    decreases |t|
  {
    if |t| >= 2 {
      if t[0] == '~' && t[1] == '~' {
        SepCountAppendOther(t[2..], c);
        assert (t + [c])[2..] == t[2..] + [c];
      } else {
        SepCountAppendOther(t[1..], c);
        assert (t + [c])[1..] == t[1..] + [c];
      }
    }
  }

  lemma {:induction false} SepCountTrimStart(s: string)
    ensures SepCount(TrimStart(s)) == SepCount(s)
    decreases |s|
  {
    if s != [] && IsWhitespace(s[0]) {
      SepCountTrimStart(s[1..]);
    }
  }

  lemma {:induction false} SepCountTrimEnd(s: string)
    ensures SepCount(TrimEnd(s)) == SepCount(s)
    decreases |s|
  {
    if s != [] && IsWhitespace(s[|s| - 1]) {
      var s' := s[..|s| - 1];
      SepCountTrimEnd(s');
      SepCountAppendOther(s', s[|s| - 1]);
      assert s == s' + [s[|s| - 1]];
    }
  }

  /** Trimming removes whitespace only, so it never touches a separator. */
  lemma {:induction false} SepCountTrim(s: string)
    ensures SepCount(Trim(s)) == SepCount(s)
  {
    SepCountTrimStart(s);
    SepCountTrimEnd(TrimStart(s));
  }

  // ---------------------------------------------------------------------------
  // contains() and compareTo()
  // ---------------------------------------------------------------------------

  /** `s.contains(p)`: `p` occurs in `s` at some position. */
  predicate Contains(s: string, p: string) {
    p <= s || (s != [] && Contains(s[1..], p))
  }

  predicate OccursAt(s: string, p: string, i: int) {
    0 <= i <= |s| - |p| && s[i..i + |p|] == p
  }

  lemma {:induction false} ContainsAt(s: string, p: string)
    ensures Contains(s, p) <==> exists i :: OccursAt(s, p, i)
    decreases |s|
  {
    if s != [] {
      ContainsAt(s[1..], p);
      if Contains(s[1..], p) {
        var i :| OccursAt(s[1..], p, i);
        assert s[i + 1..i + 1 + |p|] == s[1..][i..i + |p|];
        assert OccursAt(s, p, i + 1);
      }
      if p <= s {
        assert OccursAt(s, p, 0);
      }
      if exists i :: OccursAt(s, p, i) {
        var i :| OccursAt(s, p, i);
        if i == 0 {
          assert p <= s;
        } else {
          assert s[1..][i - 1..i - 1 + |p|] == s[i..i + |p|];
          assert OccursAt(s[1..], p, i - 1);
        }
      }
    } else {
      if exists i :: OccursAt(s, p, i) {
        var i :| OccursAt(s, p, i);
        assert p == [];
      }
      if p == [] {
        assert OccursAt(s, p, 0);
      }
    }
  }

  /**
   * `a <= b` for Kotlin strings (`a.compareTo(b) <= 0`): lexicographic,
   * character by character, a proper prefix first.
   */
  predicate LexLe(a: string, b: string) {
    if a == [] then true
    else if b == [] then false
    else if a[0] < b[0] then true
    else if a[0] == b[0] then LexLe(a[1..], b[1..])
    else false
  }

  /** `b` differs from `a` first at `i`, where `a` has the smaller character. */
  predicate FirstDiffBelow(a: string, b: string, i: int) {
    0 <= i < |a| && i < |b| && a[..i] == b[..i] && a[i] < b[i]
  }

  /**
   * `compareTo(a, b) <= 0`: `a` is a prefix of `b`, or at the first index
   * where they differ `a` has the smaller character.
   */
  lemma {:induction false} LexLeCompareTo(a: string, b: string)
    ensures LexLe(a, b) <==> a <= b || exists i :: FirstDiffBelow(a, b, i)
    decreases |a|
  {
    if a != [] && b != [] {
      if a[0] < b[0] {
        assert FirstDiffBelow(a, b, 0);
      } else if a[0] == b[0] {
        var a', b' := a[1..], b[1..];
        LexLeCompareTo(a', b');
        assert a == [a[0]] + a' && b == [b[0]] + b';
        assert a <= b <==> a' <= b';
        if i :| FirstDiffBelow(a', b', i) {
          assert a[..i + 1] == [a[0]] + a'[..i] && b[..i + 1] == [b[0]] + b'[..i];
          assert FirstDiffBelow(a, b, i + 1);
        }
        if i :| FirstDiffBelow(a, b, i) {
          assert i != 0;
          assert a'[..i - 1] == a[1..i] && b'[..i - 1] == b[1..i];
          assert a[1..i] == a[..i][1..] && b[1..i] == b[..i][1..];
          assert FirstDiffBelow(a', b', i - 1);
        }
      } else {
        assert forall i :: FirstDiffBelow(a, b, i) ==> i > 0 && a[..i][0] == b[..i][0];
      }
    }
  }

  lemma {:induction false} LexLeRefl(a: string)
    ensures LexLe(a, a)
    decreases |a|
  {
    if a != [] {
      LexLeRefl(a[1..]);
    }
  }

  lemma {:induction false} LexLeTotal(a: string, b: string)
    ensures LexLe(a, b) || LexLe(b, a)
    decreases |a|
  {
    if a != [] && b != [] && a[0] == b[0] {
      LexLeTotal(a[1..], b[1..]);
    }
  }

  lemma {:induction false} LexLeAntisymmetric(a: string, b: string)
    requires LexLe(a, b) && LexLe(b, a)
    ensures a == b
    decreases |a|
  {
    if a != [] {
      LexLeAntisymmetric(a[1..], b[1..]);
      assert a == [a[0]] + a[1..] && b == [b[0]] + b[1..];
    }
  }

  lemma {:induction false} LexLeTransitive(a: string, b: string, c: string)
    requires LexLe(a, b) && LexLe(b, c)
    ensures LexLe(a, c)
    decreases |a|
  {
    if a != [] && a[0] == b[0] && b[0] == c[0] {
      LexLeTransitive(a[1..], b[1..], c[1..]);
    }
  }

  // ---------------------------------------------------------------------------
  // BufferedReader lines
  // ---------------------------------------------------------------------------

  /** Index of the first '\n' or '\r' in `s`, or `|s|`. */
  function LineEnd(s: string): (i: nat)
    ensures i <= |s|
  {
    if s == [] || s[0] == '\n' || s[0] == '\r' then 0
    else 1 + LineEnd(s[1..])
  }

  /** `LineEnd` stops at the first break: none before it, one at it. */
  lemma {:induction false} LineEndStops(s: string)
    ensures NoLineBreak(s[..LineEnd(s)])
    ensures LineEnd(s) < |s| ==> s[LineEnd(s)] == '\n' || s[LineEnd(s)] == '\r'
    decreases |s|
  {
    if s != [] && s[0] != '\n' && s[0] != '\r' {
      LineEndStops(s[1..]);
      assert s[..LineEnd(s)] == [s[0]] + s[1..][..LineEnd(s[1..])];
    }
  }

  /**
   * The lines `BufferedReader.readLine` yields: each ends at "\n", "\r" or
   * "\r\n", the terminator is dropped, and text ending in a terminator
   * yields no final empty line.
   */
  function ReadLines(s: string): seq<string>
    decreases |s|
  {
    if s == [] then []
    else
      var i := LineEnd(s);
      if i == |s| then [s]
      else
        var next := if s[i] == '\r' && i + 1 < |s| && s[i + 1] == '\n' then i + 2 else i + 1;
        [s[..i]] + ReadLines(s[next..])
  }

  /** No line read contains a line break. */
  lemma {:induction false} ReadLinesNoBreaks(s: string)
    ensures forall k :: 0 <= k < |ReadLines(s)| ==> NoLineBreak(ReadLines(s)[k])
    decreases |s|
  {
    if s != [] {
      var i := LineEnd(s);
      LineEndStops(s);
      if i == |s| {
        assert s[..i] == s;
      } else {
        var next := if s[i] == '\r' && i + 1 < |s| && s[i + 1] == '\n' then i + 2 else i + 1;
        ReadLinesNoBreaks(s[next..]);
        assert ReadLines(s) == [s[..i]] + ReadLines(s[next..]);
      }
    }
  }

  /** A line without breaks followed by "\n" reads back as exactly that line. */
  lemma {:induction false} ReadLinesLine(line: string, rest: string)
    requires NoLineBreak(line)
    ensures ReadLines(line + "\n" + rest) == [line] + ReadLines(rest)
  {
    var s := line + "\n" + rest;
    LineEndAt(line, "\n" + rest);
    assert s == line + ("\n" + rest);
    assert s[..|line|] == line;
    assert s[|line| + 1..] == rest;
  }

  lemma {:induction false} LineEndAt(line: string, rest: string)
    requires NoLineBreak(line)
    requires rest != [] && (rest[0] == '\n' || rest[0] == '\r')
    ensures LineEnd(line + rest) == |line|
    decreases |line|
  {
    if line != [] {
      LineEndAt(line[1..], rest);
      assert (line + rest)[1..] == line[1..] + rest;
    }
  }
}
