/** The few operations on Python `str` that both front ends rely on:
    `" ".join`, `strip()`, `lower()`, `endswith` and `replace`.
    Strings are sequences of Unicode scalar values, as Python's `len`
    and slicing count code points. */
module Text {
  import opened Wrappers

  // ---------------------------------------------------------------------
  // " ".join(parts)
  // ---------------------------------------------------------------------

  /** Sum of the lengths of the parts. */
  function TotalLength(parts: seq<string>): nat
  {
    if parts == [] then 0 else |parts[0]| + TotalLength(parts[1..])
  }

  /** `" ".join(parts)`: the parts in order, one space between neighbours. */
  function SpaceJoin(parts: seq<string>): (s: string)
    ensures parts == [] ==> s == ""
    ensures parts != [] ==> |s| == TotalLength(parts) + |parts| - 1
  {
    if |parts| == 0 then ""
    else if |parts| == 1 then parts[0]
    else parts[0] + " " + SpaceJoin(parts[1..])
  }

  /** The joined text is empty exactly when there is nothing to join or
      a single empty part: two empty parts already give one space. */
  lemma SpaceJoinEmptyIff(parts: seq<string>)
    ensures SpaceJoin(parts) == "" <==> parts == [] || parts == [""]
  {
    if |parts| == 1 {
      assert TotalLength(parts) == |parts[0]| + TotalLength([]);
    }
  }

  /** `s.split(" ")`, the inverse of the single-space join. */
  function SplitOnSpace(s: string): (parts: seq<string>)
    ensures |parts| >= 1
  {
    if s == [] then [""]
    else
      var rest := SplitOnSpace(s[1..]);
      if s[0] == ' ' then [""] + rest else [[s[0]] + rest[0]] + rest[1..]
  }

  lemma {:induction false} SplitAfterSpaceFree(a: string, tail: string)
    requires ' ' !in a
    ensures SplitOnSpace(a + tail) == [a + SplitOnSpace(tail)[0]] + SplitOnSpace(tail)[1..]
    decreases |a|
  {
    var t := SplitOnSpace(tail);
    if a != [] {
      assert (a + tail)[0] == a[0] && (a + tail)[1..] == a[1..] + tail;
      SplitAfterSpaceFree(a[1..], tail);
      var rest := SplitOnSpace(a[1..] + tail);
      assert rest == [a[1..] + t[0]] + t[1..];
      assert SplitOnSpace(a + tail) == [[a[0]] + rest[0]] + rest[1..];
      assert [a[0]] + (a[1..] + t[0]) == a + t[0];
    } else {
      assert a + tail == tail;
      assert a + t[0] == t[0];
      assert [t[0]] + t[1..] == t;
    }
  }

  /** Joining texts that hold no space and splitting on spaces gives the
      texts back: the join loses nothing but the boundaries' spaces. */
  lemma {:induction false} SplitJoinRoundTrip(parts: seq<string>)
    requires parts != []
    requires forall i :: 0 <= i < |parts| ==> ' ' !in parts[i]
    ensures SplitOnSpace(SpaceJoin(parts)) == parts
    decreases |parts|
  {
    if |parts| == 1 {
      SplitAfterSpaceFree(parts[0], "");
      assert parts[0] + "" == parts[0];
    } else {
      var rest := SpaceJoin(parts[1..]);
      SplitJoinRoundTrip(parts[1..]);
      assert (" " + rest)[1..] == rest;
      assert SplitOnSpace(" " + rest) == [""] + parts[1..];
      assert parts[0] + " " + rest == parts[0] + (" " + rest);
      SplitAfterSpaceFree(parts[0], " " + rest);
      assert parts[0] + "" == parts[0];
      assert [parts[0]] + parts[1..] == parts;
    }
  }

  // ---------------------------------------------------------------------
  // str.strip()
  // ---------------------------------------------------------------------

  /** The characters Python's `str.isspace` accepts, which are the ones
      `strip()` with no argument removes. */
  predicate IsSpace(c: char)
  {
    ('\t' <= c <= '\r') || ('\U{1C}' <= c <= ' ') || c == '\U{85}' || c == '\U{A0}'
    || c == '\U{1680}' || ('\U{2000}' <= c <= '\U{200A}') || c == '\U{2028}' || c == '\U{2029}'
    || c == '\U{202F}' || c == '\U{205F}' || c == '\U{3000}'
  }

  predicate AllSpace(s: string)
  {
    forall i :: 0 <= i < |s| ==> IsSpace(s[i])
  }

  function TrimStart(s: string): (r: string)
    ensures r == [] || !IsSpace(r[0])
    ensures r == [] <==> AllSpace(s)
  {
    if s != [] && IsSpace(s[0]) then
      assert forall i :: 1 <= i < |s| ==> s[i] == s[1..][i - 1];
      TrimStart(s[1..])
    else s
  }

  function TrimEnd(s: string): (r: string)
    ensures r == [] <==> AllSpace(s)
  {
    if s != [] && IsSpace(s[|s| - 1]) then
      assert forall i :: 0 <= i < |s| - 1 ==> s[i] == s[..|s| - 1][i];
      TrimEnd(s[..|s| - 1])
    else s
  }

  /** `s.strip()`. */
  function Strip(s: string): string
  {
    TrimEnd(TrimStart(s))
  }

  /** `not s.strip()` holds exactly when every character is whitespace. */
  lemma StripEmptyIff(s: string)
    ensures Strip(s) == "" <==> AllSpace(s)
  {
  }

  lemma AllSpaceConcat(a: string, b: string)
    ensures AllSpace(a + b) <==> AllSpace(a) && AllSpace(b)
  {
    if AllSpace(a + b) {
      assert forall i :: 0 <= i < |a| ==> a[i] == (a + b)[i];
      assert forall i :: 0 <= i < |b| ==> b[i] == (a + b)[|a| + i];
    }
  }

  /** The single-space join is blank exactly when every part is blank:
      the separators are whitespace themselves. */
  lemma {:induction false} SpaceJoinBlankIff(parts: seq<string>)
    ensures AllSpace(SpaceJoin(parts)) <==> forall i :: 0 <= i < |parts| ==> AllSpace(parts[i])
    decreases |parts|
  {
    if |parts| > 1 {
      var head, tail := parts[0], parts[1..];
      SpaceJoinBlankIff(tail);
      assert SpaceJoin(parts) == (head + " ") + SpaceJoin(tail);
      AllSpaceConcat(head + " ", SpaceJoin(tail));
      AllSpaceConcat(head, " ");
      assert AllSpace(" ");
      assert forall i :: 1 <= i < |parts| ==> parts[i] == tail[i - 1];
      if !AllSpace(SpaceJoin(tail)) {
        var j :| 0 <= j < |tail| && !AllSpace(tail[j]);
        assert !AllSpace(parts[j + 1]);
      }
    }
  }

  // ---------------------------------------------------------------------
  // str.lower() and str.endswith(suffix)
  // ---------------------------------------------------------------------

  function LowerChar(c: char): (l: char)
  {
    if 'A' <= c <= 'Z' then (c as int - 'A' as int + 'a' as int) as char else c
  }

  /** `s.lower()`, on the ASCII letters. */
  function Lower(s: string): (r: string)
    ensures |r| == |s|
    ensures forall i :: 0 <= i < |s| ==> r[i] == LowerChar(s[i])
  {
    seq(|s|, i requires 0 <= i < |s| => LowerChar(s[i]))
  }

  /** Lowering twice is lowering once. */
  lemma LowerIdempotent(s: string)
    ensures Lower(Lower(s)) == Lower(s)
  {
  }

  /** `s.endswith(suffix)`. */
  predicate EndsWith(s: string, suffix: string)
  {
    |suffix| <= |s| && s[|s| - |suffix|..] == suffix
  }

  /** The text after the last '.', if the string has one. */
  function ExtensionOf(s: string): Option<string>
    decreases |s|
  {
    if s == [] then None
    else if s[|s| - 1] == '.' then Some("")
    else match ExtensionOf(s[..|s| - 1])
      case None => None
      case Some(e) => Some(e + [s[|s| - 1]])
  }

  /** Ending with "." + e, for a dot-free e, makes e the text after the
      last dot. */
  lemma {:induction false} EndsWithDotGivesExtension(s: string, e: string)
    requires '.' !in e
    requires EndsWith(s, ['.'] + e)
    ensures ExtensionOf(s) == Some(e)
    decreases |s|
  {
    var p, last := s[..|s| - 1], s[|s| - 1];
    if e != [] {
      var ep := e[..|e| - 1];
      assert '.' !in ep by { assert forall k :: 0 <= k < |ep| ==> ep[k] == e[k]; }
      assert last == e[|e| - 1] by { assert s[|s| - |e| - 1..][|e|] == (['.'] + e)[|e|]; }
      assert last != '.' by { assert e[|e| - 1] in e; }
      assert EndsWith(p, ['.'] + ep) by {
        assert p[|p| - |ep| - 1..] == s[|s| - |e| - 1..][..|e|];
      }
      EndsWithDotGivesExtension(p, ep);
      assert e == ep + [last];
    }
  }

  /** A text after the last dot is a suffix preceded by that dot. */
  lemma {:induction false} ExtensionGivesEndsWithDot(s: string, e: string)
    requires ExtensionOf(s) == Some(e)
    ensures EndsWith(s, ['.'] + e)
    decreases |s|
  {
    var p, last := s[..|s| - 1], s[|s| - 1];
    if last != '.' {
      var e' :| ExtensionOf(p) == Some(e') && e == e' + [last];
      ExtensionGivesEndsWithDot(p, e');
      var k := |p| - |e'| - 1;
      assert s == p + [last];
      assert |s| - |e| - 1 == k;
      assert s[k..] == p[k..] + [last];
      assert ['.'] + e == (['.'] + e') + [last];
    }
  }

  /** Ending with "." + e, for a dot-free e, is having e as the text after
      the last dot. */
  lemma EndsWithDotIff(s: string, e: string)
    requires '.' !in e
    ensures EndsWith(s, ['.'] + e) <==> ExtensionOf(s) == Some(e)
  {
    if EndsWith(s, ['.'] + e) {
      EndsWithDotGivesExtension(s, e);
    }
    if ExtensionOf(s) == Some(e) {
      ExtensionGivesEndsWithDot(s, e);
    }
  }

  // ---------------------------------------------------------------------
  // str.replace(pat, rep)
  // ---------------------------------------------------------------------

  /** `pat` occurs in `s` at index `i`. */
  predicate OccursAt(s: string, pat: string, i: int)
  {
    0 <= i && i + |pat| <= |s| && s[i..i + |pat|] == pat
  }

  /** `pat in s`. */
  predicate Contains(s: string, pat: string)
  {
    exists i | 0 <= i <= |s| :: OccursAt(s, pat, i)
  }

  /** `s.replace(pat, rep)`: scanning from the left, every non-overlapping
      occurrence of a non-empty `pat` is replaced by `rep`. */
  function ReplaceAll(s: string, pat: string, rep: string): string
    requires pat != []
    decreases |s|
  {
    if |s| < |pat| then s
    else if s[..|pat|] == pat then rep + ReplaceAll(s[|pat|..], pat, rep)
    else [s[0]] + ReplaceAll(s[1..], pat, rep)
  }

  /** A replacement longer than the pattern never shortens the string,
      lengthens it as soon as the pattern occurs, and leaves a string
      without the pattern untouched. */
  lemma {:induction false} ReplaceAllGrows(s: string, pat: string, rep: string)
    requires pat != [] && |rep| > |pat|
    ensures |ReplaceAll(s, pat, rep)| >= |s|
    ensures Contains(s, pat) ==> |ReplaceAll(s, pat, rep)| > |s|
    ensures !Contains(s, pat) ==> ReplaceAll(s, pat, rep) == s
    decreases |s|
  {
    if |s| < |pat| {
      assert !Contains(s, pat);
    } else if s[..|pat|] == pat {
      ReplaceAllGrows(s[|pat|..], pat, rep);
      assert OccursAt(s, pat, 0);
    } else {
      var t := s[1..];
      ReplaceAllGrows(t, pat, rep);
      if Contains(s, pat) {
        var i :| 0 <= i <= |s| && OccursAt(s, pat, i);
        assert 0 <= i && i + |pat| <= |s| && s[i..i + |pat|] == pat;
        assert i != 0;
        assert t[i - 1..i - 1 + |pat|] == s[i..i + |pat|];
        assert OccursAt(t, pat, i - 1);
      }
      if Contains(t, pat) {
        var j :| 0 <= j <= |t| && OccursAt(t, pat, j);
        assert s[j + 1..j + 1 + |pat|] == t[j..j + |pat|];
        assert OccursAt(s, pat, j + 1);
      }
      if !Contains(s, pat) {
        assert [s[0]] + t == s;
      }
    }
  }

  /** A lengthening replacement changes the string exactly when the
      pattern occurs in it. */
  lemma ReplaceAllUnchangedIff(s: string, pat: string, rep: string)
    requires pat != [] && |rep| > |pat|
    ensures ReplaceAll(s, pat, rep) == s <==> !Contains(s, pat)
  {
    ReplaceAllGrows(s, pat, rep);
  }

  /** An occurrence starting inside `stem` is excluded when `stem` has
      none and the character after `stem` appears nowhere in `pat` but at
      its head. */
  lemma NoEarlyOccurrence(stem: string, tail: string, pat: string)
    requires pat != [] && tail != [] && !Contains(stem, pat)
    requires forall k :: 1 <= k < |pat| ==> pat[k] != tail[0]
    ensures forall i :: 0 <= i < |stem| ==> !OccursAt(stem + tail, pat, i)
  {
    var s := stem + tail;
    forall i | 0 <= i < |stem| ensures !OccursAt(s, pat, i) {
      if i + |pat| <= |stem| {
        assert s[i..i + |pat|] == stem[i..i + |pat|];
        assert !OccursAt(stem, pat, i);
      } else if i + |pat| <= |s| {
        assert s[i..i + |pat|][|stem| - i] == tail[0];
        assert pat[|stem| - i] != tail[0];
      }
    }
  }

  /** Replacing scans past a prefix in which no occurrence starts. */
  lemma {:induction false} ReplaceAllSkipsPrefix(stem: string, tail: string, pat: string, rep: string)
    requires pat != []
    requires forall i :: 0 <= i < |stem| ==> !OccursAt(stem + tail, pat, i)
    ensures ReplaceAll(stem + tail, pat, rep) == stem + ReplaceAll(tail, pat, rep)
    decreases |stem|
  {
    var s := stem + tail;
    if stem != [] {
      if |s| >= |pat| {
        assert !OccursAt(s, pat, 0);
        assert s[1..] == stem[1..] + tail;
        forall i | 0 <= i < |stem[1..]| ensures !OccursAt(stem[1..] + tail, pat, i) {
          assert !OccursAt(s, pat, i + 1);
          if i + 1 + |pat| <= |s| {
            assert s[i + 1..i + 1 + |pat|] == (stem[1..] + tail)[i..i + |pat|];
          }
        }
        ReplaceAllSkipsPrefix(stem[1..], tail, pat, rep);
        assert [s[0]] + (stem[1..] + ReplaceAll(tail, pat, rep)) == stem + ReplaceAll(tail, pat, rep);
      } else {
        assert |tail| < |pat|;
      }
    } else {
      assert s == tail;
    }
  }

  /** Replacing in `stem + tail` leaves `stem` alone when `stem` holds no
      occurrence and none can straddle the boundary. */
  lemma ReplaceAllAfterStem(stem: string, tail: string, pat: string, rep: string)
    requires pat != [] && tail != [] && !Contains(stem, pat)
    requires forall k :: 1 <= k < |pat| ==> pat[k] != tail[0]
    ensures ReplaceAll(stem + tail, pat, rep) == stem + ReplaceAll(tail, pat, rep)
  {
    NoEarlyOccurrence(stem, tail, pat);
    ReplaceAllSkipsPrefix(stem, tail, pat, rep);
  }

  /** A pattern holding a character the string lacks does not occur. */
  lemma MissingCharNotContained(s: string, pat: string, k: nat)
    requires k < |pat| && pat[k] !in s
    ensures !Contains(s, pat)
  {
    forall i | 0 <= i <= |s| ensures !OccursAt(s, pat, i) {
      if i + |pat| <= |s| {
        assert s[i..i + |pat|][k] == s[i + k];
      }
    }
  }

  /** Replacing in the pattern itself yields the replacement. */
  lemma ReplaceAllSelf(pat: string, rep: string)
    requires pat != []
    ensures ReplaceAll(pat, pat, rep) == rep
  {
    assert pat[..|pat|] == pat;
    assert pat[|pat|..] == [];
    assert rep + [] == rep;
  }

  /** A pattern absent from `a` is absent from `a + b` when it cannot
      start inside `b` nor straddle the boundary. */
  lemma NotContainedConcat(a: string, b: string, pat: string)
    requires pat != [] && b != [] && !Contains(a, pat)
    requires pat[0] !in b
    requires forall k :: 1 <= k < |pat| ==> pat[k] != b[0]
    ensures !Contains(a + b, pat)
  {
    var s := a + b;
    NoEarlyOccurrence(a, b, pat);
    forall i | |a| <= i <= |s| ensures !OccursAt(s, pat, i) {
      if i + |pat| <= |s| {
        assert s[i..i + |pat|][0] == b[i - |a|];
      }
    }
  }
}

