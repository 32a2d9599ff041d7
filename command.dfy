/** The command-line tokenising helpers of code.cpp: `split`, which cuts a
    line into at most three parts at its first two spaces, and
    `convert_to_lowercase`, which lowercases a string in place. */
module Command {

  /** The end of the space-free run of `s` that starts at `i`: the first
      space at or after `i`, or the end of the line. */
  function FieldEnd(s: string, i: nat): (j: nat)
    requires i <= |s|
    ensures i <= j <= |s|
    ensures j == |s| || s[j] == ' '
    ensures forall n :: i <= n < j ==> s[n] != ' '
    decreases |s| - i
  {
    if i == |s| || s[i] == ' ' then i else FieldEnd(s, i + 1)
  }

  /** The three raw fields of a line: up to the first space, between the
      first and the second space, and everything after the second space.
      A field past the end of the line is empty. */
  function Fields(s: string): (string, string, string) {
    var e0 := FieldEnd(s, 0);
    if e0 == |s| then (s, [], [])
    else
      var e1 := FieldEnd(s, e0 + 1);
      if e1 == |s| then (s[..e0], s[e0 + 1..], [])
      else (s[..e0], s[e0 + 1..e1], s[e1 + 1..])
  }

  /** A line cut at a space is the part before it, the space, and the part
      after it. */
  lemma CutAt(s: string, e: nat)
    requires e < |s| && s[e] == ' '
    ensures s == s[..e] + [' '] + s[e + 1..]
  {
  }

  /** No character of a run that `FieldEnd` scanned is a space. */
  lemma RunHasNoSpace(s: string, i: nat)
    requires i <= |s|
    ensures ' ' !in s[i..FieldEnd(s, i)]
  {
    var r := s[i..FieldEnd(s, i)];
    forall n | 0 <= n < |r| ensures r[n] != ' ' {
      assert r[n] == s[i + n];
    }
  }

  /** A line with spaces at `e0` and `e1` is the three pieces around them
      joined by those spaces. */
  lemma CutTwice(s: string, e0: nat, e1: nat)
    requires e0 < e1 < |s| && s[e0] == ' ' && s[e1] == ' '
    ensures s == s[..e0] + [' '] + s[e0 + 1..e1] + [' '] + s[e1 + 1..]
  {
    var t := s[e0 + 1..];
    CutAt(t, e1 - (e0 + 1));
    assert t[..e1 - (e0 + 1)] == s[e0 + 1..e1];
    assert t[e1 - (e0 + 1) + 1..] == s[e1 + 1..];
    CutAt(s, e0);
  }

  /** The first two fields hold no space, and joining the fields that the
      line has with single spaces gives back the line. */
  lemma FieldsRebuild(s: string)
    ensures var f := Fields(s);
      && ' ' !in f.0 && ' ' !in f.1
      && ((s == f.0 && f.1 == [] && f.2 == [])
          || (s == f.0 + [' '] + f.1 && f.2 == [])
          || s == f.0 + [' '] + f.1 + [' '] + f.2)
  {
    var e0 := FieldEnd(s, 0);
    RunHasNoSpace(s, 0);
    assert s[0..e0] == s[..e0];
    if e0 == |s| {
      assert s[..e0] == s;
      assert Fields(s) == (s, [], []);
    } else {
      var e1 := FieldEnd(s, e0 + 1);
      RunHasNoSpace(s, e0 + 1);
      if e1 == |s| {
        assert s[e0 + 1..e1] == s[e0 + 1..];
        CutAt(s, e0);
        assert Fields(s) == (s[..e0], s[e0 + 1..], []);
      } else {
        CutTwice(s, e0, e1);
        assert Fields(s) == (s[..e0], s[e0 + 1..e1], s[e1 + 1..]);
      }
    }
  }

  /** A field is kept only when it is not empty. */
  function Keep(p: string): (r: seq<string>)
    ensures p == [] ==> r == []
    ensures p != [] ==> r == [p]
  {
    if p == [] then [] else [p]
  }

  /** What `split` returns: the non-empty fields, in order. */
  function SplitParts(s: string): seq<string> {
    var f := Fields(s);
    Keep(f.0) + Keep(f.1) + Keep(f.2)
  }

  /** code.cpp's `split`: three loops over one index, each collecting
      characters into a buffer that is kept when not empty. The index
      steps over the separating space even past the end of the line, where
      the later loops then collect nothing. */
  method Split(input: string) returns (ans: seq<string>)
    ensures ans == SplitParts(input)
  {
    ghost var f := Fields(input);
    ghost var e0 := FieldEnd(input, 0);
    ans := [];
    var temp := "";
    var i := 0;
    while i < |input| && input[i] != ' '
      invariant 0 <= i <= e0
      invariant temp == input[..i]
    {
      temp := temp + [input[i]];
      i := i + 1;
    }
    assert i == e0;
    assert temp == f.0;
    if temp != "" {
      ans := ans + [temp];
    }
    assert ans == Keep(f.0);
    i := i + 1;
    temp := "";

    // When the first field ends the line, the index is already past the
    // end and the second loop collects nothing.
    ghost var e1 := if e0 < |input| then FieldEnd(input, e0 + 1) else e0 + 1;
    while i < |input| && input[i] != ' '
      invariant e0 + 1 <= i <= e1
      invariant e0 < |input| ==> temp == input[e0 + 1..i]
      invariant e0 == |input| ==> temp == []
    {
      temp := temp + [input[i]];
      i := i + 1;
    }
    assert i == e1;
    assert temp == f.1;
    if temp != "" {
      ans := ans + [temp];
    }
    assert ans == Keep(f.0) + Keep(f.1);
    ghost var kept := ans;
    i := i + 1;
    temp := "";

    ghost var s2 := i;
    while i < |input|
      invariant s2 <= i
      invariant s2 <= |input| ==> i <= |input| && temp == input[s2..i]
      invariant |input| < s2 ==> i == s2 && temp == []
    {
      temp := temp + [input[i]];
      i := i + 1;
    }
    assert temp == f.2;
    if temp != "" {
      ans := ans + [temp];
    }
    assert ans == kept + Keep(f.2);
  }

  /** `split` returns at most three parts and none of them is empty. */
  lemma SplitShape(s: string)
    ensures |SplitParts(s)| <= 3
    ensures forall i :: 0 <= i < |SplitParts(s)| ==> SplitParts(s)[i] != []
  {
    var f := Fields(s);
    assert SplitParts(s) == Keep(f.0) + Keep(f.1) + Keep(f.2);
  }

  /** When all three parts are there, the first two hold no space and
      joining the parts with single spaces gives back the line. */
  lemma SplitJoin(s: string)
    requires |SplitParts(s)| == 3
    ensures ' ' !in SplitParts(s)[0] && ' ' !in SplitParts(s)[1]
    ensures SplitParts(s)[0] + [' '] + SplitParts(s)[1] + [' '] + SplitParts(s)[2] == s
  {
    var f := Fields(s);
    assert SplitParts(s) == Keep(f.0) + Keep(f.1) + Keep(f.2);
    assert f.0 != [] && f.1 != [] && f.2 != [];
    assert SplitParts(s) == [f.0, f.1, f.2];
    FieldsRebuild(s);
  }

  /** A scan from `i` stops at the first space at or after `i`. */
  lemma FieldEndAt(s: string, i: nat, j: nat)
    requires i <= j < |s| && s[j] == ' '
    requires forall n :: i <= n < j ==> s[n] != ' '
    ensures FieldEnd(s, i) == j
  {
  }

  /** A line made of two space-free words and a non-empty rest, joined by
      single spaces, splits back into exactly those three parts. */
  lemma SplitOfJoin(p0: string, p1: string, p2: string)
    requires p0 != [] && p1 != [] && p2 != []
    requires ' ' !in p0 && ' ' !in p1
    ensures SplitParts(p0 + [' '] + p1 + [' '] + p2) == [p0, p1, p2]
  {
    var s := p0 + [' '] + p1 + [' '] + p2;
    var e0 := |p0|;
    var e1 := |p0| + 1 + |p1|;
    forall n | 0 <= n < e0 ensures s[n] != ' ' {
      assert s[n] == p0[n];
    }
    assert s[e0] == ' ';
    FieldEndAt(s, 0, e0);
    forall n | e0 + 1 <= n < e1 ensures s[n] != ' ' {
      assert s[n] == p1[n - (e0 + 1)];
    }
    assert s[e1] == ' ';
    FieldEndAt(s, e0 + 1, e1);
    assert s[..e0] == p0;
    assert s[e0 + 1..e1] == p1;
    assert s[e1 + 1..] == p2;
    assert Fields(s) == (p0, p1, p2);
  }

  /** The lowercase form of a character under the "C" locale: only the
      ASCII capitals `A` to `Z` change. */
  function LowerChar(c: char): (r: char)
    ensures 'A' <= c <= 'Z' ==> r as int == c as int + 32
    ensures !('A' <= c <= 'Z') ==> r == c
    ensures !('A' <= r <= 'Z')
  {
    if 'A' <= c <= 'Z' then (c as int - 'A' as int + 'a' as int) as char else c
  }

  /** `s` with every character lowercased. */
  function Lower(s: string): (r: string)
    ensures |r| == |s|
  {
    if s == [] then [] else [LowerChar(s[0])] + Lower(s[1..])
  }

  /** Lowercasing acts character by character and leaves no capital. */
  lemma {:induction false} LowerEach(s: string)
    ensures forall i :: 0 <= i < |s| ==> Lower(s)[i] == LowerChar(s[i])
    ensures forall i :: 0 <= i < |s| ==> !('A' <= Lower(s)[i] <= 'Z')
  {
    if s != [] {
      LowerEach(s[1..]);
      forall i | 0 <= i < |s| ensures Lower(s)[i] == LowerChar(s[i]) {
        if i > 0 {
          assert Lower(s)[i] == Lower(s[1..])[i - 1];
        }
      }
    }
  }

  /** Lowercasing twice is lowercasing once. */
  lemma {:induction false} LowerIdempotent(s: string)
    ensures Lower(Lower(s)) == Lower(s)
  {
    if s != [] {
      LowerIdempotent(s[1..]);
      var t := Lower(s);
      assert t[0] == LowerChar(s[0]) && t[1..] == Lower(s[1..]);
    }
  }

  /** code.cpp's `convert_to_lowercase`: replaces each character of the
      buffer by its lowercase form, in place. */
  method ToLowercase(a: array<char>)
    modifies a
    ensures a[..] == Lower(old(a[..]))
  {
    ghost var s := a[..];
    LowerEach(s);
    for i := 0 to a.Length
      invariant forall n :: 0 <= n < i ==> a[n] == LowerChar(s[n])
      invariant forall n :: i <= n < a.Length ==> a[n] == s[n]
    {
      a[i] := LowerChar(a[i]);
    }
    assert a[..] == Lower(s);
  }
}
