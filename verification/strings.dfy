/** Character-sequence helpers: splitting at a separator the way Rust's
    `str::split` does, its inverse `Join`, and decimal rendering of natural
    numbers the way `format!("{}")` prints them. */
module Strings {

  /** `p` is the text of `s` after its last `sep`, or all of `s` when `s`
      holds no `sep`. */
  ghost predicate IsLastPiece(s: string, sep: char, p: string) {
    && |p| <= |s|
    && s[|s| - |p|..] == p
    && sep !in p
    && (|p| == |s| || s[|s| - |p| - 1] == sep)
  }

  /** The pieces of `s` between occurrences of `sep`, in order, empty pieces
      included: `"a//b"` splits into `["a", "", "b"]` and `""` into `[""]`.
      Defined from the right end, which keeps the last piece easy to name. */
  function Split(s: string, sep: char): (parts: seq<string>)
    ensures |parts| == Count(s, sep) + 1
    decreases |s|
  {
    if |s| == 0 then [""]
    else
      var init := Split(s[..|s| - 1], sep);
      if s[|s| - 1] == sep then init + [""] else Extend(init, s[|s| - 1])
  }

  /** How many times `c` occurs in `s`. */
  function Count(s: string, c: char): nat
    decreases |s|
  {
    if |s| == 0 then 0 else Count(s[..|s| - 1], c) + (if s[|s| - 1] == c then 1 else 0)
  }

  /** `parts` with `c` appended to its last piece. */
  function Extend(parts: seq<string>, c: char): (r: seq<string>)
    requires |parts| >= 1
    ensures |r| == |parts|
    ensures r[..|r| - 1] == parts[..|parts| - 1]
    ensures r[|r| - 1] == parts[|parts| - 1] + [c]
  {
    parts[..|parts| - 1] + [parts[|parts| - 1] + [c]]
  }

  /** One unfolding of `Split` at the last character. */
  lemma SplitStep(s: string, sep: char)
    requires |s| > 0
    ensures s[|s| - 1] == sep ==> Split(s, sep) == Split(s[..|s| - 1], sep) + [""]
    ensures s[|s| - 1] != sep ==> Split(s, sep) == Extend(Split(s[..|s| - 1], sep), s[|s| - 1])
  {
  }

  /** No piece of a split holds the separator. */
  lemma {:induction false} SplitPiecesFree(s: string, sep: char)
    ensures forall i :: 0 <= i < |Split(s, sep)| ==> sep !in Split(s, sep)[i]
    decreases |s|
  {
    if |s| > 0 {
      var init := Split(s[..|s| - 1], sep);
      SplitPiecesFree(s[..|s| - 1], sep);
      SplitStep(s, sep);
      var parts := Split(s, sep);
      forall i | 0 <= i < |parts|
        ensures sep !in parts[i]
      {
        if i < |parts| - 1 && s[|s| - 1] == sep {
          assert parts[i] == init[i];
        } else if i < |parts| - 1 {
          assert parts[i] == parts[..|parts| - 1][i] == init[..|init| - 1][i];
        }
      }
    }
  }

  /** The last piece of a split is the text after the last separator. */
  lemma {:induction false} SplitLastPiece(s: string, sep: char)
    ensures IsLastPiece(s, sep, Split(s, sep)[|Split(s, sep)| - 1])
    decreases |s|
  {
    if |s| > 0 {
      var init := Split(s[..|s| - 1], sep);
      SplitLastPiece(s[..|s| - 1], sep);
      SplitStep(s, sep);
      var parts := Split(s, sep);
      if s[|s| - 1] == sep {
        assert parts[|parts| - 1] == "";
        LastPieceAfterSeparator(s, sep);
      } else {
        assert parts[|parts| - 1] == init[|init| - 1] + [s[|s| - 1]];
        FrontAndLast(s);
        LastPieceExtend(s[..|s| - 1], s[|s| - 1], sep, init[|init| - 1]);
      }
    }
  }

  /** A string ending in the separator has an empty last piece. */
  lemma LastPieceAfterSeparator(s: string, sep: char)
    requires |s| > 0 && s[|s| - 1] == sep
    ensures IsLastPiece(s, sep, "")
  {
  }

  /** Appending a character other than the separator extends the last
      piece. */
  lemma LastPieceExtend(s: string, c: char, sep: char, p: string)
    requires c != sep && IsLastPiece(s, sep, p)
    ensures IsLastPiece(s + [c], sep, p + [c])
  {
    var t := s + [c];
    var q := p + [c];
    assert t[|t| - |q|..] == s[|s| - |p|..] + [c];
    if |p| < |s| {
      assert t[|t| - |q| - 1] == s[|s| - |p| - 1];
    }
  }

  /** In a string that starts with `sep`, the last piece of the text after
      that first `sep` follows the string's last `sep`. */
  lemma LastPieceAfterLeadingSeparator(s: string, sep: char, p: string)
    requires |s| > 0 && s[0] == sep
    requires IsLastPiece(s[1..], sep, p)
    ensures |p| < |s|
    ensures s[|s| - |p| - 1] == sep && s[|s| - |p|..] == p
    ensures forall i :: |s| - |p| - 1 < i < |s| ==> s[i] != sep
  {
    var rest := s[1..];
    var j := |rest| - |p|;
    assert j == |s| - |p| - 1;
    if j > 0 {
      assert s[j] == rest[j - 1];
    }
    assert s[j + 1..] == rest[j..];
    forall i | j < i < |s|
      ensures s[i] != sep
    {
      assert s[i] == s[j + 1..][i - j - 1];
      assert p[i - j - 1] in p;
    }
  }

  /** A string has at most one last occurrence of a character. */
  lemma LastOccurrenceUnique(s: string, c: char, k: nat, j: nat)
    requires k < |s| && s[k] == c && forall i :: k < i < |s| ==> s[i] != c
    requires j < |s| && s[j] == c && forall i :: j < i < |s| ==> s[i] != c
    ensures k == j
  {
  }

  /** The pieces put back together with `sep` between neighbours. */
  function Join(parts: seq<string>, sep: char): string
    requires |parts| >= 1
  {
    if |parts| == 1 then parts[0]
    else Join(parts[..|parts| - 1], sep) + [sep] + parts[|parts| - 1]
  }

  /** Joining the pieces of a split restores the string. */
  lemma {:induction false} JoinSplit(s: string, sep: char)
    ensures Join(Split(s, sep), sep) == s
    decreases |s|
  {
    if |s| > 0 {
      var s' := s[..|s| - 1];
      JoinSplit(s', sep);
      SplitStep(s, sep);
      assert s == s' + [s[|s| - 1]];
      if s[|s| - 1] == sep {
        JoinAppendEmpty(Split(s', sep), sep);
      } else {
        JoinExtend(Split(s', sep), sep, s[|s| - 1]);
      }
    }
  }

  /** A trailing empty piece joins as a trailing separator. */
  lemma JoinAppendEmpty(parts: seq<string>, sep: char)
    requires |parts| >= 1
    ensures Join(parts + [""], sep) == Join(parts, sep) + [sep]
  {
    assert (parts + [""])[..|parts|] == parts;
  }

  /** Extending the last piece extends the join. */
  lemma JoinExtend(parts: seq<string>, sep: char, c: char)
    requires |parts| >= 1
    ensures Join(Extend(parts, c), sep) == Join(parts, sep) + [c]
  {
    var r := Extend(parts, c);
    if |parts| > 1 {
      var front := parts[..|parts| - 1];
      assert r[..|r| - 1] == front;
      assert Join(r, sep) == Join(front, sep) + [sep] + (parts[|parts| - 1] + [c]);
    }
  }

  /** Extending the last of a list of pieces. */
  lemma ExtendAppend(init: seq<string>, p: string, c: char)
    ensures Extend(init + [p], c) == init + [p + [c]]
  {
    assert (init + [p])[..|init|] == init;
  }

  /** Appending one more piece after a separator appends it to the split. */
  lemma {:induction false} SplitAfterSeparator(x: string, sep: char, piece: string)
    requires sep !in piece
    ensures Split(x + [sep] + piece, sep) == Split(x, sep) + [piece]
    decreases |piece|
  {
    var s := x + [sep] + piece;
    if |piece| > 0 {
      var p' := piece[..|piece| - 1];
      var c := piece[|piece| - 1];
      assert c != sep && sep !in p';
      SplitAfterSeparator(x, sep, p');
      assert s[..|s| - 1] == x + [sep] + p';
      SplitStep(s, sep);
      ExtendAppend(Split(x, sep), p', c);
      FrontAndLast(piece);
    } else {
      assert s[..|s| - 1] == x;
      SplitStep(s, sep);
    }
  }

  /** A string without the separator is a single piece. */
  lemma {:induction false} SplitWithoutSeparator(piece: string, sep: char)
    requires sep !in piece
    ensures Split(piece, sep) == [piece]
    decreases |piece|
  {
    if |piece| > 0 {
      var p' := piece[..|piece| - 1];
      assert sep !in p';
      SplitWithoutSeparator(p', sep);
      SplitStep(piece, sep);
      FrontAndLast(piece);
      var r := Split(piece, sep);
      assert |r| == 1 && r[0] == piece;
    }
  }

  /** A non-empty sequence is its front followed by its last element. */
  lemma FrontAndLast<T>(s: seq<T>)
    requires |s| > 0
    ensures s[..|s| - 1] + [s[|s| - 1]] == s
  {
  }

  /** Splitting a join of separator-free pieces gives the pieces back. */
  lemma {:induction false} SplitJoin(parts: seq<string>, sep: char)
    requires |parts| >= 1
    requires forall i :: 0 <= i < |parts| ==> sep !in parts[i]
    ensures Split(Join(parts, sep), sep) == parts
    decreases |parts|
  {
    if |parts| == 1 {
      SplitWithoutSeparator(parts[0], sep);
    } else {
      var init := parts[..|parts| - 1];
      var last := parts[|parts| - 1];
      assert Join(parts, sep) == Join(init, sep) + [sep] + last;
      SplitJoin(init, sep);
      SplitAfterSeparator(Join(init, sep), sep, last);
      FrontAndLast(parts);
    }
  }

  /** The character printed for a decimal digit. */
  function Digit(d: nat): (c: char)
    requires d < 10
  {
    ('0' as int + d) as char
  }

  /** The value of a character read as a decimal digit (0 for anything else). */
  function DigitValue(c: char): nat {
    if '0' <= c <= '9' then c as int - '0' as int else 0
  }

  /** `n` in decimal, most significant digit first, no leading zeros. */
  function NatToString(n: nat): (s: string)
    ensures |s| >= 1
    ensures forall i :: 0 <= i < |s| ==> '0' <= s[i] <= '9'
    ensures s[0] == '0' <==> n == 0
    ensures |s| == 1 <==> n < 10
    decreases n
  {
    if n < 10 then [Digit(n)] else NatToString(n / 10) + [Digit(n % 10)]
  }

  /** The number a string of decimal digits denotes. */
  function DecimalValue(s: string): nat
    decreases |s|
  {
    if |s| == 0 then 0
    else DecimalValue(s[..|s| - 1]) * 10 + DigitValue(s[|s| - 1])
  }

  /** Reading back the decimal rendering of `n` gives `n`. */
  lemma {:induction false} DecimalRoundTrip(n: nat)
    ensures DecimalValue(NatToString(n)) == n
    decreases n
  {
    if n >= 10 {
      DecimalRoundTrip(n / 10);
      var s := NatToString(n);
      assert s[..|s| - 1] == NatToString(n / 10);
    }
  }

  /** Distinct numbers print differently. */
  lemma NatToStringInjective(m: nat, n: nat)
    ensures NatToString(m) == NatToString(n) ==> m == n
  {
    DecimalRoundTrip(m);
    DecimalRoundTrip(n);
  }
}
