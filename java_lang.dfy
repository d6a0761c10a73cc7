/**
  The pieces of java.lang that the cookie codec and the decode pipeline lean on:
  nullable references, the String operations `indexOf`, `split`, `trim` and
  `getBytes`, each with the exact JDK semantics the callers rely on.
 */
module JavaLang {

  /** A Java reference that may be null. */
  datatype Option<+T> = None | Some(value: T)

  /** A Java `byte` viewed as its unsigned value, as written to a byte stream. */
  type byte = b: int | 0 <= b < 256

  // ---------------------------------------------------------------------------
  // String.indexOf(char)
  // ---------------------------------------------------------------------------

  /** `c` does not occur in `s`. */
  predicate NoChar(s: string, c: char)
  {
    forall k :: 0 <= k < |s| ==> s[k] != c
  }

  /** Every character of `s` is `c`. */
  predicate AllChar(s: string, c: char)
  {
    forall k :: 0 <= k < |s| ==> s[k] == c
  }

  /** `s.indexOf(c)`: the first position of `c` in `s`, or -1. */
  function IndexOf(s: string, c: char): (r: int)
    ensures -1 <= r < |s|
    ensures r >= 0 ==> s[r] == c
  {
    if |s| == 0 then -1
    else if s[0] == c then 0
    else
      var r := IndexOf(s[1..], c);
      if r == -1 then -1 else r + 1
  }

  /** `indexOf` finds the first occurrence, and answers -1 exactly when there is none. */
  lemma {:induction false} IndexOfFirst(s: string, c: char)
    ensures IndexOf(s, c) == -1 <==> NoChar(s, c)
    ensures IndexOf(s, c) >= 0 ==> NoChar(s[..IndexOf(s, c)], c)
    decreases |s|
  {
    if |s| > 0 && s[0] != c {
      var t := s[1..];
      IndexOfFirst(t, c);
      assert forall k :: 1 <= k < |s| ==> s[k] == t[k - 1];
    }
  }

  /** The first `c` of `p + [c] + t` is the one after `p` when `p` has none. */
  lemma {:induction false} IndexOfAfter(p: string, c: char, t: string)
    requires NoChar(p, c)
    ensures IndexOf(p + [c] + t, c) == |p|
  {
    var s := p + [c] + t;
    IndexOfFirst(s, c);
    var i := IndexOf(s, c);
    assert s[|p|] == c;
  }

  // ---------------------------------------------------------------------------
  // String.split(String) with a one-character delimiter that is not a regular
  // expression metacharacter (";" and "=" here), i.e. split(d, 0)
  // ---------------------------------------------------------------------------

  /** The text between consecutive occurrences of `d`, before Java drops anything. */
  function Pieces(s: string, d: char): (r: seq<string>)
    ensures |r| >= 1
    decreases |s|
  {
    var i := IndexOf(s, d);
    if i == -1 then [s] else [s[..i]] + Pieces(s[i + 1..], d)
  }

  /** One step of `Pieces` when `d` occurs. */
  lemma {:induction false} PiecesCons(s: string, d: char)
    requires IndexOf(s, d) >= 0
    ensures Pieces(s, d) == [s[..IndexOf(s, d)]] + Pieces(s[IndexOf(s, d) + 1..], d)
  {
  }

  /** Putting a `d`-free string in front of `d`-free strings keeps them all `d`-free. */
  lemma ConsNoChar(h: string, t: seq<string>, d: char)
    requires NoChar(h, d)
    requires forall k :: 0 <= k < |t| ==> NoChar(t[k], d)
    ensures forall k :: 0 <= k < |[h] + t| ==> NoChar(([h] + t)[k], d)
  {
    forall k | 0 <= k < |[h] + t|
      ensures NoChar(([h] + t)[k], d)
    {
      if k > 0 {
        assert ([h] + t)[k] == t[k - 1];
      }
    }
  }

  /** No piece contains the delimiter. */
  lemma {:induction false} PiecesDelimiterFree(s: string, d: char)
    ensures forall k :: 0 <= k < |Pieces(s, d)| ==> NoChar(Pieces(s, d)[k], d)
    decreases |s|
  {
    var i := IndexOf(s, d);
    IndexOfFirst(s, d);
    if i >= 0 {
      var rest := s[i + 1..];
      PiecesDelimiterFree(rest, d);
      ConsNoChar(s[..i], Pieces(rest, d), d);
      PiecesCons(s, d);
    }
  }

  /** The pieces glued back together with `d` between neighbours. */
  function Join(r: seq<string>, d: char): string
  {
    if |r| == 0 then ""
    else if |r| == 1 then r[0]
    else r[0] + [d] + Join(r[1..], d)
  }

  /** Cutting at every `d` and gluing back with `d` gives the text back. */
  lemma {:induction false} JoinPieces(s: string, d: char)
    ensures Join(Pieces(s, d), d) == s
    decreases |s|
  {
    var i := IndexOf(s, d);
    if i >= 0 {
      var tail := s[i + 1..];
      JoinPieces(tail, d);
      PiecesCons(s, d);
      JoinAround(s, i, Pieces(tail, d), d);
    }
  }

  /** Gluing the part before a `d` to pieces that join to the part after it gives the text. */
  lemma JoinAround(s: string, i: nat, rest: seq<string>, d: char)
    requires i < |s| && s[i] == d
    requires |rest| >= 1 && Join(rest, d) == s[i + 1..]
    ensures Join([s[..i]] + rest, d) == s
  {
    JoinCons(s[..i], rest, d);
    assert s == s[..i] + [d] + s[i + 1..];
  }

  /** One step of `Join` in front of a non-empty list. */
  lemma JoinCons(head: string, rest: seq<string>, d: char)
    requires |rest| >= 1
    ensures Join([head] + rest, d) == head + [d] + Join(rest, d)
  {
    assert ([head] + rest)[1..] == rest;
  }

  /** Conversely, a non-empty list of `d`-free pieces is recovered from its join. */
  lemma {:induction false} PiecesJoin(r: seq<string>, d: char)
    requires |r| >= 1
    requires forall k :: 0 <= k < |r| ==> NoChar(r[k], d)
    ensures Pieces(Join(r, d), d) == r
  {
    if |r| > 1 {
      var t := Join(r[1..], d);
      PiecesAfter(r[0], t, d);
      PiecesJoin(r[1..], d);
      assert r == [r[0]] + r[1..];
    }
  }

  /** `Pieces` of `head + [d] + t` with a `d`-free `head` starts with `head`. */
  lemma PiecesAfter(head: string, t: string, d: char)
    requires NoChar(head, d)
    ensures Pieces(head + [d] + t, d) == [head] + Pieces(t, d)
  {
    var s := head + [d] + t;
    IndexOfAfter(head, d, t);
    PiecesCons(s, d);
    assert s[..|head|] == head;
    assert s[|head| + 1..] == t;
  }

  /** Java's `split` with limit 0 removes trailing empty strings. */
  function DropTrailingEmpty(r: seq<string>): (t: seq<string>)
    ensures |t| <= |r|
    ensures t == [] || t[|t| - 1] != ""
  {
    if |r| == 0 || r[|r| - 1] != "" then r
    else DropTrailingEmpty(r[..|r| - 1])
  }

  /** What is kept is a prefix. */
  lemma {:induction false} DropTrailingKeepsPrefix(r: seq<string>)
    ensures DropTrailingEmpty(r) == r[..|DropTrailingEmpty(r)|]
    decreases |r|
  {
    if |r| > 0 && r[|r| - 1] == "" {
      var p := r[..|r| - 1];
      DropTrailingKeepsPrefix(p);
      assert p[..|DropTrailingEmpty(p)|] == r[..|DropTrailingEmpty(p)|];
    }
  }

  /** Only empty strings are dropped. */
  lemma {:induction false} DropTrailingDropsEmpty(r: seq<string>)
    ensures forall k :: |DropTrailingEmpty(r)| <= k < |r| ==> r[k] == ""
    decreases |r|
  {
    if |r| > 0 && r[|r| - 1] == "" {
      var p := r[..|r| - 1];
      DropTrailingDropsEmpty(p);
      assert forall k :: 0 <= k < |p| ==> p[k] == r[k];
    }
  }

  /**
    `s.split(d)`: when `d` does not occur the result is `[s]` (so `"".split(d)`
    is `[""]`); otherwise the pieces with the trailing empty ones removed.
   */
  function Split(s: string, d: char): seq<string>
  {
    if IndexOf(s, d) == -1 then [s] else DropTrailingEmpty(Pieces(s, d))
  }

  /**
    What `split` keeps: a prefix of the pieces, none containing `d`, where
    every piece dropped is empty and the last one kept is not (when `d` occurs).
   */
  lemma {:induction false} SplitKeepsPrefix(s: string, d: char)
    ensures |Split(s, d)| <= |Pieces(s, d)| && Split(s, d) == Pieces(s, d)[..|Split(s, d)|]
    ensures forall k :: |Split(s, d)| <= k < |Pieces(s, d)| ==> Pieces(s, d)[k] == ""
    ensures IndexOf(s, d) >= 0 && Split(s, d) != [] ==> Split(s, d)[|Split(s, d)| - 1] != ""
    ensures forall k :: 0 <= k < |Split(s, d)| ==> NoChar(Split(s, d)[k], d)
  {
    PiecesDelimiterFree(s, d);
    DropTrailingKeepsPrefix(Pieces(s, d));
    DropTrailingDropsEmpty(Pieces(s, d));
  }

  /** Every string of `r` is empty. */
  predicate AllEmpty(r: seq<string>)
  {
    forall k :: 0 <= k < |r| ==> r[k] == ""
  }

  /** Every piece is empty exactly when the text consists of delimiters only. */
  lemma {:induction false} PiecesAllEmpty(s: string, d: char)
    ensures AllEmpty(Pieces(s, d)) <==> AllChar(s, d)
  {
    if AllChar(s, d) {
      PiecesEmptyIfAll(s, d);
    }
    if AllEmpty(Pieces(s, d)) {
      AllIfPiecesEmpty(s, d);
    }
  }

  lemma {:induction false} PiecesEmptyIfAll(s: string, d: char)
    requires AllChar(s, d)
    ensures AllEmpty(Pieces(s, d))
    decreases |s|
  {
    if |s| > 0 {
      assert s[0] == d;
      assert IndexOf(s, d) == 0;
      var t := s[1..];
      assert forall k :: 0 <= k < |t| ==> t[k] == s[k + 1];
      PiecesEmptyIfAll(t, d);
      PiecesCons(s, d);
      assert s[..0] == "";
    }
  }

  lemma {:induction false} AllIfPiecesEmpty(s: string, d: char)
    requires AllEmpty(Pieces(s, d))
    ensures AllChar(s, d)
    decreases |s|
  {
    var i := IndexOf(s, d);
    if i >= 0 {
      PiecesCons(s, d);
      assert Pieces(s, d)[0] == s[..i];
      assert i == 0;
      var t := s[1..];
      assert forall k :: 0 <= k < |Pieces(t, d)| ==> Pieces(t, d)[k] == Pieces(s, d)[k + 1];
      AllIfPiecesEmpty(t, d);
      forall k | 0 <= k < |s| ensures s[k] == d {
        if k > 0 { assert s[k] == t[k - 1]; }
      }
    } else {
      assert Pieces(s, d)[0] == s;
    }
  }

  /**
    `s.split(d)` is empty exactly when `s` is non-empty and made of `d` only,
    e.g. `"=".split("=")` and `";;".split(";")`.
   */
  lemma {:induction false} SplitEmpty(s: string, d: char)
    ensures Split(s, d) == [] <==> |s| > 0 && AllChar(s, d)
  {
    PiecesAllEmpty(s, d);
    DropTrailingKeepsPrefix(Pieces(s, d));
    if |s| > 0 && AllChar(s, d) {
      assert s[0] == d;
      assert IndexOf(s, d) >= 0;
      assert AllEmpty(Pieces(s, d));
    }
    if Split(s, d) == [] {
      DropTrailingDropsEmpty(Pieces(s, d));
    }
  }

  /** When `d` occurs and something survives, the first element is the text before the first `d`. */
  lemma {:induction false} SplitFirst(s: string, d: char)
    requires IndexOf(s, d) >= 0 && |Split(s, d)| > 0
    ensures Split(s, d)[0] == s[..IndexOf(s, d)]
  {
    PiecesCons(s, d);
    DropTrailingKeepsPrefix(Pieces(s, d));
  }

  /** The first piece of `p + [d] + t`, for a non-empty `p` free of `d`. */
  lemma {:induction false} SplitFirstOf(p: string, d: char, t: string)
    requires p != [] && NoChar(p, d)
    ensures |Split(p + [d] + t, d)| > 0 && Split(p + [d] + t, d)[0] == p
  {
    var s := p + [d] + t;
    IndexOfAfter(p, d, t);
    assert s[0] == p[0];
    SplitEmpty(s, d);
    SplitFirst(s, d);
    assert s[..|p|] == p;
  }

  /**
    `s.split(d)` has more than one element exactly when `d` occurs and some
    character after its first occurrence is not `d`.
   */
  lemma {:induction false} SplitMoreThanOne(s: string, d: char)
    ensures |Split(s, d)| > 1 <==>
      IndexOf(s, d) >= 0 && !(forall k :: IndexOf(s, d) < k < |s| ==> s[k] == d)
  {
    var i := IndexOf(s, d);
    if i >= 0 {
      if forall k :: i < k < |s| ==> s[k] == d {
        var t := s[i + 1..];
        assert AllChar(t, d) by {
          forall m | 0 <= m < |t| ensures t[m] == d {
            assert t[m] == s[i + 1 + m];
          }
        }
        SplitShortIfAllDelims(s, d);
      } else {
        assert |Split(s, d)| > 1 by {
          if |Split(s, d)| <= 1 {
            SplitShortAllDelims(s, d);
          }
        }
      }
    }
  }

  /** Only delimiters after the first `d` leave at most one element. */
  lemma {:induction false} SplitShortIfAllDelims(s: string, d: char)
    requires IndexOf(s, d) >= 0 && AllChar(s[IndexOf(s, d) + 1..], d)
    ensures |Split(s, d)| <= 1
  {
    var i := IndexOf(s, d);
    var t := s[i + 1..];
    assert AllEmpty(Pieces(t, d)) by {
      PiecesEmptyIfAll(t, d);
    }
    var r := Pieces(s, d);
    assert forall k :: 1 <= k < |r| ==> r[k] == "" by {
      PiecesCons(s, d);
      assert forall k :: 1 <= k < |r| ==> r[k] == Pieces(t, d)[k - 1];
    }
    var u := DropTrailingEmpty(r);
    DropTrailingKeepsPrefix(r);
    assert Split(s, d) == u;
  }

  /** When at most one piece survives, every piece after the first is empty. */
  lemma ShortDropTail(head: string, rest: seq<string>)
    requires |DropTrailingEmpty([head] + rest)| <= 1
    ensures AllEmpty(rest)
  {
    var r := [head] + rest;
    DropTrailingDropsEmpty(r);
    forall j | 0 <= j < |rest| ensures rest[j] == "" {
      assert rest[j] == r[j + 1];
    }
  }

  /** A text whose part after position `i` is all `d` has `d` at every later position. */
  lemma AllCharAfter(s: string, i: nat, d: char)
    requires i < |s| && AllChar(s[i + 1..], d)
    ensures forall k :: i < k < |s| ==> s[k] == d
  {
    forall k | i < k < |s| ensures s[k] == d {
      assert s[i + 1..][k - i - 1] == s[k];
    }
  }

  /** When the split keeps at most one element, everything after the first `d` is `d`. */
  lemma {:induction false} SplitShortAllDelims(s: string, d: char)
    requires IndexOf(s, d) >= 0 && |Split(s, d)| <= 1
    ensures forall k :: IndexOf(s, d) < k < |s| ==> s[k] == d
  {
    var i := IndexOf(s, d);
    var t := s[i + 1..];
    PiecesCons(s, d);
    ShortDropTail(s[..i], Pieces(t, d));
    PiecesAllEmpty(t, d);
    AllCharAfter(s, i, d);
  }

  /** A character other than `d` after the first `d` leaves at least two pieces. */
  lemma {:induction false} SplitTwoPieces(s: string, d: char, j: nat)
    requires IndexOf(s, d) >= 0 && IndexOf(s, d) < j < |s| && s[j] != d
    ensures |Split(s, d)| > 1
  {
    SplitMoreThanOne(s, d);
  }

  // ---------------------------------------------------------------------------
  // String.trim(): strips every character whose code is at most ' ' (U+0020)
  // from both ends
  // ---------------------------------------------------------------------------

  /** The first loop of `trim`: skip leading characters `<= ' '`. */
  function TrimStart(s: string): (r: string)
    ensures |r| <= |s|
    ensures r != [] ==> r[0] > ' '
  {
    if |s| > 0 && s[0] <= ' ' then TrimStart(s[1..]) else s
  }

  /** What `TrimStart` keeps is a suffix. */
  lemma {:induction false} TrimStartSuffix(s: string)
    ensures TrimStart(s) == s[|s| - |TrimStart(s)|..]
    decreases |s|
  {
    if |s| > 0 && s[0] <= ' ' {
      TrimStartSuffix(s[1..]);
      assert s[1..][|s| - 1 - |TrimStart(s)|..] == s[|s| - |TrimStart(s)|..];
    }
  }

  /** Everything `TrimStart` skips is blank. */
  lemma {:induction false} TrimStartSkipsBlanks(s: string)
    ensures forall k :: 0 <= k < |s| - |TrimStart(s)| ==> s[k] <= ' '
    decreases |s|
  {
    if |s| > 0 && s[0] <= ' ' {
      TrimStartSkipsBlanks(s[1..]);
      assert forall k :: 1 <= k < |s| ==> s[k] == s[1..][k - 1];
    }
  }

  /** The second loop of `trim`: drop trailing characters `<= ' '`. */
  function TrimEnd(s: string): (r: string)
    ensures |r| <= |s|
    ensures r != [] ==> r[0] == s[0] && r[|r| - 1] > ' '
  {
    if |s| > 0 && s[|s| - 1] <= ' ' then TrimEnd(s[..|s| - 1]) else s
  }

  /** What `TrimEnd` keeps is a prefix. */
  lemma {:induction false} TrimEndPrefix(s: string)
    ensures TrimEnd(s) == s[..|TrimEnd(s)|]
    decreases |s|
  {
    if |s| > 0 && s[|s| - 1] <= ' ' {
      var p := s[..|s| - 1];
      TrimEndPrefix(p);
      assert p[..|TrimEnd(p)|] == s[..|TrimEnd(p)|];
    }
  }

  /** Everything `TrimEnd` drops is blank. */
  lemma {:induction false} TrimEndDropsBlanks(s: string)
    ensures forall k :: |TrimEnd(s)| <= k < |s| ==> s[k] <= ' '
    decreases |s|
  {
    if |s| > 0 && s[|s| - 1] <= ' ' {
      var p := s[..|s| - 1];
      TrimEndDropsBlanks(p);
      assert forall k :: 0 <= k < |p| ==> p[k] == s[k];
    }
  }

  /** `s.trim()`. */
  function Trim(s: string): (r: string)
    ensures |r| <= |s|
    ensures r != [] ==> r[0] > ' ' && r[|r| - 1] > ' '
  {
    TrimEnd(TrimStart(s))
  }

  /** A string with no blank at either end is its own trim. */
  lemma {:induction false} TrimUnchanged(s: string)
    requires s != [] ==> s[0] > ' ' && s[|s| - 1] > ' '
    ensures Trim(s) == s
  {
  }

  // ---------------------------------------------------------------------------
  // String.getBytes()
  // ---------------------------------------------------------------------------

  /** One byte per character; a character outside the charset becomes '?'. */
  function CharByte(c: char): byte
  {
    if (c as int) < 256 then c as int else '?' as int
  }

  /** `s.getBytes()` under a one-byte-per-character charset. */
  function GetBytes(s: string): (r: seq<byte>)
    ensures |r| == |s|
  {
    seq(|s|, k requires 0 <= k < |s| => CharByte(s[k]))
  }

  /** Writing two strings one after the other writes the bytes of their concatenation. */
  lemma {:induction false} GetBytesConcat(a: string, b: string)
    ensures GetBytes(a + b) == GetBytes(a) + GetBytes(b)
  {
    assert forall k :: 0 <= k < |a| + |b| ==> GetBytes(a + b)[k] == (GetBytes(a) + GetBytes(b))[k];
  }
}
