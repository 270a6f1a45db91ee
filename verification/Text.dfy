/** The string operations the adapter uses, over ASCII text. */
module Text {
  datatype Option<+T> = None | Some(value: T)

  predicate IsSpace(c: char) { 9 <= c as int <= 13 || c == ' ' }

  // ---- trimming

  function TrimLeft(s: string): string
  {
    if |s| > 0 && IsSpace(s[0]) then TrimLeft(s[1..]) else s
  }

  function TrimRight(s: string): string
  {
    if |s| > 0 && IsSpace(s[|s| - 1]) then TrimRight(s[..|s| - 1]) else s
  }

  function Trim(s: string): string { TrimRight(TrimLeft(s)) }

  predicate Trimmed(s: string) { |s| > 0 ==> !IsSpace(s[0]) && !IsSpace(s[|s| - 1]) }

  predicate AllSpace(s: string) { forall i :: 0 <= i < |s| ==> IsSpace(s[i]) }

  lemma TrimLeftSplits(s: string) returns (n: nat)
    ensures n <= |s| && AllSpace(s[..n]) && TrimLeft(s) == s[n..]
    ensures |TrimLeft(s)| > 0 ==> !IsSpace(TrimLeft(s)[0])
  {
    if |s| > 0 && IsSpace(s[0]) {
      var m := TrimLeftSplits(s[1..]);
      n := m + 1;
      assert s[n..] == s[1..][m..];
      assert s[..n] == [s[0]] + s[1..][..m];
    } else {
      n := 0;
    }
  }

  lemma TrimRightSplits(s: string) returns (n: nat)
    ensures n <= |s| && AllSpace(s[n..]) && TrimRight(s) == s[..n]
    ensures |TrimRight(s)| > 0 ==> !IsSpace(TrimRight(s)[|TrimRight(s)| - 1])
  {
    if |s| > 0 && IsSpace(s[|s| - 1]) {
      n := TrimRightSplits(s[..|s| - 1]);
      assert s[..n] == s[..|s| - 1][..n];
      assert s[n..] == s[..|s| - 1][n..] + [s[|s| - 1]];
    } else {
      n := |s|;
    }
  }

  lemma ThreePieces(s: string, n: nat, m: nat)
    requires n <= |s| && m <= |s[n..]|
    ensures s == s[..n] + s[n..][..m] + s[n..][m..]
  {
  }

  /** Trimming removes whitespace from both ends and nothing else, as much of it as there is. */
  lemma TrimSplits(s: string) returns (left: string, right: string)
    ensures s == left + Trim(s) + right && AllSpace(left) && AllSpace(right)
    ensures Trimmed(Trim(s))
  {
    var n := TrimLeftSplits(s);
    var m := TrimRightSplits(TrimLeft(s));
    left, right := s[..n], TrimLeft(s)[m..];
    ThreePieces(s, n, m);
    if m > 0 {
      assert Trim(s)[0] == TrimLeft(s)[0];
    }
  }

  lemma TrimsToNothing(s: string)
    ensures Trim(s) == "" <==> AllSpace(s)
  {
    var left, right := TrimSplits(s);
    if Trim(s) == "" {
      assert s == left + right;
    } else {
      assert s[|left|] == Trim(s)[0];
    }
  }

  lemma TrimOfTrimmed(s: string)
    requires Trimmed(s)
    ensures Trim(s) == s
  {
  }

  // ---- case

  function LowerChar(c: char): char { if 'A' <= c <= 'Z' then (c as int + 32) as char else c }

  function UpperChar(c: char): char { if 'a' <= c <= 'z' then (c as int - 32) as char else c }

  function ToLower(s: string): (t: string)
    ensures |t| == |s| && forall i :: 0 <= i < |s| ==> t[i] == LowerChar(s[i])
  {
    seq(|s|, i requires 0 <= i < |s| => LowerChar(s[i]))
  }

  function ToUpper(s: string): (t: string)
    ensures |t| == |s| && forall i :: 0 <= i < |s| ==> t[i] == UpperChar(s[i])
  {
    seq(|s|, i requires 0 <= i < |s| => UpperChar(s[i]))
  }

  /** ASCII whitespace: tab, line feed, vertical tab, form feed, carriage return and space. */
  lemma WhitespaceIsAscii(c: char)
    ensures IsSpace(c) <==> c as int in {9, 10, 11, 12, 13, 32}
  {
  }

  /** The two case tables, letter by letter; what is not a letter has no case. */
  lemma CaseTables(lower: string, upper: string, k: nat, c: char)
    requires lower == "abcdefghijklmnopqrstuvwxyz" && upper == "ABCDEFGHIJKLMNOPQRSTUVWXYZ" && k < 26
    ensures UpperChar(lower[k]) == UpperChar(upper[k]) == upper[k]
    ensures LowerChar(upper[k]) == LowerChar(lower[k]) == lower[k]
    ensures !('a' <= c <= 'z' || 'A' <= c <= 'Z') ==> UpperChar(c) == LowerChar(c) == c
  {
  }

  /** A text is in capitals exactly if no letter of it is small, and `tel`, in any case, is TEL. */
  lemma TelInAnyCase(s: string)
    requires |s| == 3
    ensures ToUpper(s) == "TEL" <==> s[0] in "tT" && s[1] in "eE" && s[2] in "lL"
  {
    assert ToUpper(s) == [UpperChar(s[0]), UpperChar(s[1]), UpperChar(s[2])];
  }

  // ---- searching

  predicate OccursAt(s: string, pattern: string, i: int)
  {
    0 <= i && i + |pattern| <= |s| && s[i..i + |pattern|] == pattern
  }

  lemma OccursInTail(s: string, pattern: string, j: int)
    requires |s| > 0 && j >= 1
    ensures OccursAt(s, pattern, j) <==> OccursAt(s[1..], pattern, j - 1)
  {
    if j + |pattern| <= |s| {
      assert s[j..j + |pattern|] == s[1..][j - 1..j - 1 + |pattern|];
    }
  }

  /** The first position of the pattern, -1 if there is none. */
  function IndexOf(s: string, pattern: string): (i: int)
    ensures i == -1 || OccursAt(s, pattern, i)
    ensures forall j :: 0 <= j && (i == -1 || j < i) ==> !OccursAt(s, pattern, j)
  {
    if pattern <= s then 0
    else if |s| == 0 then -1
    else
      var rest := IndexOf(s[1..], pattern);
      assert forall j :: j >= 1 ==> (OccursAt(s, pattern, j) <==> OccursAt(s[1..], pattern, j - 1)) by {
        forall j | j >= 1 ensures OccursAt(s, pattern, j) <==> OccursAt(s[1..], pattern, j - 1) {
          OccursInTail(s, pattern, j);
        }
      }
      if rest == -1 then -1 else rest + 1
  }

  predicate Contains(s: string, pattern: string) { IndexOf(s, pattern) >= 0 }

  lemma ContainsAnywhere(s: string, pattern: string)
    ensures Contains(s, pattern) <==> exists i :: OccursAt(s, pattern, i)
  {
    if Contains(s, pattern) {
      assert OccursAt(s, pattern, IndexOf(s, pattern));
    }
  }

  predicate HasSuffix(s: string, suffix: string)
  {
    |s| >= |suffix| && s[|s| - |suffix|..] == suffix
  }

  /** The first position of one of the characters, -1 if there is none. */
  function IndexAny(s: string, chars: string): (i: int)
    ensures -1 <= i < |s|
    ensures i >= 0 ==> s[i] in chars && forall j :: 0 <= j < i ==> s[j] !in chars
    ensures i == -1 ==> forall j :: 0 <= j < |s| ==> s[j] !in chars
  {
    if |s| == 0 then -1
    else if s[0] in chars then 0
    else
      var rest := IndexAny(s[1..], chars);
      if rest == -1 then -1 else rest + 1
  }

  /** The last position of the character, -1 if there is none. */
  function LastIndex(s: string, c: char): (i: int)
    ensures -1 <= i < |s|
    ensures i >= 0 ==> s[i] == c
    ensures forall j :: i < j < |s| ==> s[j] != c
  {
    if |s| == 0 then -1
    else if s[|s| - 1] == c then |s| - 1
    else LastIndex(s[..|s| - 1], c)
  }

  // ---- splitting and joining

  function Split(s: string, sep: char): (parts: seq<string>)
    ensures |parts| >= 1
    ensures forall k :: 0 <= k < |parts| ==> sep !in parts[k]
  {
    if |s| == 0 then [""]
    else
      var rest := Split(s[1..], sep);
      if s[0] == sep then [""] + rest else [[s[0]] + rest[0]] + rest[1..]
  }

  function Join(parts: seq<string>, sep: char): string
  {
    if |parts| == 0 then ""
    else if |parts| == 1 then parts[0]
    else parts[0] + [sep] + Join(parts[1..], sep)
  }

  lemma {:induction false} JoinOfSplit(s: string, sep: char)
    ensures Join(Split(s, sep), sep) == s
  {
    if |s| > 0 {
      JoinOfSplit(s[1..], sep);
      var rest, parts := Split(s[1..], sep), Split(s, sep);
      if s[0] == sep {
        assert parts[1..] == rest;
      } else {
        assert parts[1..] == rest[1..];
      }
    }
  }

  lemma SplitOfPlain(s: string, sep: char)
    requires sep !in s
    ensures Split(s, sep) == [s]
  {
    if |s| > 0 {
      SplitOfPlain(s[1..], sep);
      assert s == [s[0]] + s[1..];
    }
  }

  /** The separator cuts: what follows it does not change what precedes it. */
  lemma {:induction false} SplitAppend(a: string, b: string, sep: char)
    ensures Split(a + [sep] + b, sep) == Split(a, sep) + Split(b, sep)
  {
    var s := a + [sep] + b;
    if |a| == 0 {
      assert s[1..] == b;
    } else {
      assert s[1..] == a[1..] + [sep] + b;
      SplitAppend(a[1..], b, sep);
    }
  }

  /** Lines printed with a separator between them are read back one by one. */
  lemma {:induction false} SplitOfJoin(parts: seq<string>, sep: char)
    requires |parts| > 0 && forall k :: 0 <= k < |parts| ==> sep !in parts[k]
    ensures Split(Join(parts, sep), sep) == parts
  {
    SplitOfPlain(parts[0], sep);
    if |parts| == 1 {
      assert parts == [parts[0]];
    } else {
      SplitOfJoin(parts[1..], sep);
      SplitAppend(parts[0], Join(parts[1..], sep), sep);
      assert parts == [parts[0]] + parts[1..];
    }
  }
}
