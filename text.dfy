/**
 * The Python string operations the source relies on: `strip()`, `replace`,
 * `in`, `split(sep)`, `split()`, `lower()`, `startswith` and `" ".join`.
 * Whitespace and case are ASCII only.
 */
module Text {

  /**
   * The characters Python's `str.isspace` accepts among ASCII: space, tab,
   * line feed, vertical tab, form feed, carriage return and the four
   * separators 0x1C-0x1F.
   */
  predicate IsSpace(c: char) {
    || c == ' ' || c == '\t' || c == '\n' || c == '\U{000B}' || c == '\U{000C}' || c == '\r'
    || c == '\U{001C}' || c == '\U{001D}' || c == '\U{001E}' || c == '\U{001F}'
  }

  /** The number of whitespace characters s starts with. */
  function LeadSpaces(s: string): (n: nat)
    ensures n <= |s|
    ensures n < |s| ==> !IsSpace(s[n])
  {
    if s != [] && IsSpace(s[0]) then 1 + LeadSpaces(s[1..]) else 0
  }

  /** The number of whitespace characters s ends with. */
  function TailSpaces(s: string): (n: nat)
    ensures n <= |s|
    ensures n < |s| ==> !IsSpace(s[|s| - 1 - n])
  {
    if s != [] && IsSpace(s[|s| - 1]) then 1 + TailSpaces(s[..|s| - 1]) else 0
  }

  /** Python `s.strip()`: s without its leading and trailing whitespace. */
  function Strip(s: string): (r: string)
    ensures |r| <= |s|
    ensures r != [] ==> !IsSpace(r[0]) && !IsSpace(r[|r| - 1])
  {
    var t := s[LeadSpaces(s)..];
    t[..|t| - TailSpaces(t)]
  }

  /** Python `s.replace(a, b)` for single characters a and b. */
  function ReplaceChar(s: string, a: char, b: char): (r: string)
    ensures |r| == |s|
  {
    if s == [] then [] else [if s[0] == a then b else s[0]] + ReplaceChar(s[1..], a, b)
  }

  /** Python `sub in s`. */
  predicate Contains(s: string, sub: string) {
    |sub| <= |s| && (s[..|sub|] == sub || Contains(s[1..], sub))
  }

  predicate StartsWith(s: string, prefix: string) {
    |prefix| <= |s| && s[..|prefix|] == prefix
  }

  /** Python `s.split(sep)` for a non-empty separator: left to right, non-overlapping. */
  function SplitOn(s: string, sep: string): (parts: seq<string>)
    requires sep != []
    ensures |parts| >= 1
  {
    if |s| < |sep| then [s]
    else if s[..|sep|] == sep then [""] + SplitOn(s[|sep|..], sep)
    else
      var rest := SplitOn(s[1..], sep);
      [[s[0]] + rest[0]] + rest[1..]
  }

  /** Splitting yields two or more pieces exactly when the separator occurs. */
  lemma {:induction false} SplitOnContains(s: string, sep: string)
    requires sep != []
    ensures |SplitOn(s, sep)| >= 2 <==> Contains(s, sep)
  {
    if |s| >= |sep| && s[..|sep|] != sep {
      SplitOnContains(s[1..], sep);
    }
  }

  /** Python `sep.join(parts)`. */
  function Join(parts: seq<string>, sep: string): string {
    if parts == [] then ""
    else if |parts| == 1 then parts[0]
    else parts[0] + sep + Join(parts[1..], sep)
  }

  /** Joining the pieces of a split with the same separator gives back the text. */
  lemma {:induction false} JoinSplitOn(s: string, sep: string)
    requires sep != []
    ensures Join(SplitOn(s, sep), sep) == s
  {
    if |s| < |sep| {
    } else if s[..|sep|] == sep {
      JoinSplitOn(s[|sep|..], sep);
      var rest := SplitOn(s[|sep|..], sep);
      assert SplitOn(s, sep) == [""] + rest;
      assert ([""] + rest)[1..] == rest;
      assert s == s[..|sep|] + s[|sep|..];
    } else {
      JoinSplitOn(s[1..], sep);
      var rest := SplitOn(s[1..], sep);
      var parts := SplitOn(s, sep);
      assert parts == [[s[0]] + rest[0]] + rest[1..];
      if |rest| == 1 {
        assert Join(parts, sep) == [s[0]] + rest[0];
      } else {
        assert parts[1..] == rest[1..];
        assert Join(rest, sep) == rest[0] + sep + Join(rest[1..], sep);
      }
      assert s == [s[0]] + s[1..];
    }
  }

  /** How many non-space characters s starts with. */
  function WordLength(s: string): (n: nat)
    ensures n <= |s|
    ensures forall i | 0 <= i < n :: !IsSpace(s[i])
    ensures n < |s| ==> IsSpace(s[n])
  {
    if s == [] || IsSpace(s[0]) then 0 else 1 + WordLength(s[1..])
  }

  /** Python `s.split()`: the maximal runs of non-space characters, in order. */
  function Words(s: string): (ws: seq<string>)
    ensures forall k | 0 <= k < |ws| :: ws[k] != [] && forall i | 0 <= i < |ws[k]| :: !IsSpace(ws[k][i])
  {
    if s == [] then []
    else if IsSpace(s[0]) then Words(s[1..])
    else
      var n := WordLength(s);
      [s[..n]] + Words(s[n..])
  }

  function LowerChar(c: char): char {
    if 'A' <= c <= 'Z' then (c as int + 32) as char else c
  }

  /** Python `s.lower()` on ASCII letters. */
  function Lower(s: string): (r: string)
    ensures |r| == |s| && forall i | 0 <= i < |s| :: r[i] == LowerChar(s[i])
  {
    if s == [] then [] else [LowerChar(s[0])] + Lower(s[1..])
  }

  function CountChar(s: string, c: char): nat {
    if s == [] then 0 else (if s[0] == c then 1 else 0) + CountChar(s[1..], c)
  }

  /** Python `c in s` for a single character. */
  predicate HasChar(s: string, c: char) {
    s != [] && (s[0] == c || HasChar(s[1..], c))
  }

  lemma {:induction false} HasCharIn(s: string, c: char)
    ensures HasChar(s, c) <==> c in s
  {
    if s != [] {
      HasCharIn(s[1..], c);
      assert s == [s[0]] + s[1..];
    }
  }

  /** Python `s.split(c)` for a one-character separator. */
  function SplitChar(s: string, c: char): (parts: seq<string>)
    ensures |parts| >= 1
  {
    if s == [] then [""]
    else if s[0] == c then [""] + SplitChar(s[1..], c)
    else
      var rest := SplitChar(s[1..], c);
      [[s[0]] + rest[0]] + rest[1..]
  }

  /** Splitting on a character is splitting on the one-character separator. */
  lemma {:induction false} SplitCharIsSplitOn(s: string, c: char)
    ensures SplitChar(s, c) == SplitOn(s, [c])
  {
    if s != [] {
      assert s[..1] == [s[0]];
      SplitCharIsSplitOn(s[1..], c);
    }
  }

  /** Splitting on one character yields one piece more than there are occurrences of it. */
  lemma {:induction false} SplitCharCount(s: string, c: char)
    ensures |SplitChar(s, c)| == CountChar(s, c) + 1
  {
    if s != [] {
      SplitCharCount(s[1..], c);
    }
  }

  /** A text without the separator character is a single piece. */
  lemma {:induction false} SplitCharAbsent(s: string, c: char)
    requires !HasChar(s, c)
    ensures SplitChar(s, c) == [s]
  {
    if s != [] {
      SplitCharAbsent(s[1..], c);
      assert [s[0]] + s[1..] == s;
    }
  }

  /** The first piece of a split ends at the first occurrence of the separator character. */
  lemma {:induction false} SplitCharFirst(a: string, c: char, b: string)
    requires !HasChar(a, c)
    ensures SplitChar(a + [c] + b, c) == [a] + SplitChar(b, c)
  {
    var s := a + [c] + b;
    if a == [] {
      assert s[1..] == b;
    } else {
      assert s[1..] == a[1..] + [c] + b;
      SplitCharFirst(a[1..], c, b);
      assert [a[0]] + a[1..] == a;
    }
  }

  lemma {:induction false} HasCharConcat(a: string, b: string, c: char)
    ensures HasChar(a + b, c) <==> HasChar(a, c) || HasChar(b, c)
  {
    if a != [] {
      assert (a + b)[1..] == a[1..] + b;
      HasCharConcat(a[1..], b, c);
    } else {
      assert a + b == b;
    }
  }

  lemma {:induction false} CountCharHas(s: string, c: char)
    ensures CountChar(s, c) > 0 <==> HasChar(s, c)
  {
    if s != [] {
      CountCharHas(s[1..], c);
    }
  }

  lemma {:induction false} CountCharConcat(a: string, b: string, c: char)
    ensures CountChar(a + b, c) == CountChar(a, c) + CountChar(b, c)
  {
    if a != [] {
      assert (a + b)[1..] == a[1..] + b;
      CountCharConcat(a[1..], b, c);
    } else {
      assert a + b == b;
    }
  }

  /** Stripping leaves a text alone that neither starts nor ends with whitespace. */
  lemma StripUnchanged(s: string)
    requires s != [] && !IsSpace(s[0]) && !IsSpace(s[|s| - 1])
    ensures Strip(s) == s
  {
  }

  lemma {:induction false} ReplaceCharConcat(s: string, t: string, a: char, b: char)
    ensures ReplaceChar(s + t, a, b) == ReplaceChar(s, a, b) + ReplaceChar(t, a, b)
  {
    if s == [] {
      assert s + t == t;
    } else {
      assert (s + t)[1..] == s[1..] + t;
      ReplaceCharConcat(s[1..], t, a, b);
    }
  }

  /** Replacing a character that does not occur leaves the text alone. */
  lemma {:induction false} ReplaceAbsent(s: string, a: char, b: char)
    requires !HasChar(s, a)
    ensures ReplaceChar(s, a, b) == s
  {
    if s != [] {
      ReplaceAbsent(s[1..], a, b);
      assert [s[0]] + s[1..] == s;
    }
  }

  /** After replacing every `a` by another character, no `a` is left. */
  lemma {:induction false} ReplaceCharRemoves(s: string, a: char, b: char)
    requires a != b
    ensures !HasChar(ReplaceChar(s, a, b), a)
  {
    if s != [] {
      ReplaceCharRemoves(s[1..], a, b);
    }
  }
  /** A first piece without the separator's first character ends where the separator starts. */
  lemma {:induction false} SplitOnLead(a: string, sep: string, b: string)
    requires sep != [] && !HasChar(a, sep[0])
    ensures SplitOn(a + sep + b, sep) == [a] + SplitOn(b, sep)
  {
    var s := a + sep + b;
    if a == [] {
      assert s == sep + b;
      assert s[..|sep|] == sep && s[|sep|..] == b;
    } else {
      assert s[..|sep|][0] == a[0];
      assert s[1..] == a[1..] + sep + b;
      SplitOnLead(a[1..], sep, b);
      assert [a[0]] + a[1..] == a;
    }
  }

  /** A text without the separator's first character is a single piece. */
  lemma {:induction false} SplitOnAbsent(b: string, sep: string)
    requires sep != [] && !HasChar(b, sep[0])
    ensures SplitOn(b, sep) == [b]
  {
    if |b| >= |sep| {
      assert b[..|sep|][0] == b[0];
      SplitOnAbsent(b[1..], sep);
      assert [b[0]] + b[1..] == b;
    }
  }

  /** Every character of a contained text occurs in the containing one. */
  lemma {:induction false} ContainsHas(s: string, sub: string, i: nat)
    requires Contains(s, sub) && i < |sub|
    ensures HasChar(s, sub[i])
  {
    if s[..|sub|] == sub {
      assert s[i] == sub[i];
      HasCharIn(s, sub[i]);
    } else {
      ContainsHas(s[1..], sub, i);
    }
  }

  lemma LowerConcat(a: string, b: string)
    ensures Lower(a + b) == Lower(a) + Lower(b)
  {
  }

  /**
   * A leading word without whitespace, followed by the end of the text or by
   * whitespace, is the first word.
   */
  lemma WordsLead(a: string, t: string)
    requires a != [] && forall i | 0 <= i < |a| :: !IsSpace(a[i])
    requires t == [] || IsSpace(t[0])
    ensures Words(a + t) == [a] + Words(t)
  {
    var s := a + t;
    var n := WordLength(s);
    assert forall i | 0 <= i < |a| :: s[i] == a[i];
    assert t != [] ==> s[|a|] == t[0];
    assert n == |a|;
    assert s[..n] == a && s[n..] == t;
  }
}
