/** String helpers with Python's semantics: str.split with a one-character
    separator, str.join, the ASCII part of str.lower, and decimal digits. */
module Text {

  /** `s.split(sep)`: the pieces between occurrences of `sep`; never empty,
      and "" splits to [""]. */
  function Split(s: string, sep: char): (parts: seq<string>)
    ensures |parts| >= 1
    ensures forall i :: 0 <= i < |parts| ==> sep !in parts[i]
  {
    if |s| == 0 then [""]
    else
      var rest := Split(s[1..], sep);
      if s[0] == sep then [""] + rest
      else [[s[0]] + rest[0]] + rest[1..]
  }

  /** `sep.join(parts)`: the joined text starts with the first piece. */
  function Join(parts: seq<string>, sep: string): (s: string)
    ensures |parts| >= 1 ==> |parts[0]| <= |s| && s[..|parts[0]|] == parts[0]
  {
    if |parts| == 0 then ""
    else if |parts| == 1 then parts[0]
    else parts[0] + sep + Join(parts[1..], sep)
  }

  /** Appending a piece adds the separator and the piece at the end of the joined text. */
  lemma {:induction false} JoinAppend(parts: seq<string>, sep: string, last: string)
    requires |parts| >= 1
    ensures Join(parts + [last], sep) == Join(parts, sep) + sep + last
  {
    if |parts| == 1 {
      assert (parts + [last])[1..] == [last];
    } else {
      JoinAppend(parts[1..], sep, last);
      assert (parts + [last])[1..] == parts[1..] + [last];
    }
  }

  /** Joining the pieces of a split with the same separator gives the text back. */
  lemma {:induction false} JoinSplit(s: string, sep: char)
    ensures Join(Split(s, sep), [sep]) == s
  {
    if |s| > 0 {
      JoinSplit(s[1..], sep);
      var rest := Split(s[1..], sep);
      if s[0] != sep && |rest| > 1 {
        assert Join(rest, [sep]) == rest[0] + [sep] + Join(rest[1..], [sep]);
        assert s == [s[0]] + s[1..];
      }
    }
  }

  /** A piece free of the separator splits to itself. */
  lemma {:induction false} SplitNoSep(s: string, sep: char)
    requires sep !in s
    ensures Split(s, sep) == [s]
  {
    if |s| > 0 {
      SplitNoSep(s[1..], sep);
      assert [s[0]] + s[1..] == s;
    }
  }

  /** One step of the split: the first character either ends the first piece or starts it. */
  lemma SplitCons(c: char, t: string, sep: char)
    ensures c == sep ==> Split([c] + t, sep) == [""] + Split(t, sep)
    ensures c != sep ==> Split([c] + t, sep) == [[c] + Split(t, sep)[0]] + Split(t, sep)[1..]
  {
    assert ([c] + t)[0] == c && ([c] + t)[1..] == t;
  }

  /** Splitting around one occurrence of the separator splits each side independently. */
  lemma {:induction false} SplitAround(a: string, sep: char, b: string)
    ensures Split(a + [sep] + b, sep) == Split(a, sep) + Split(b, sep)
  {
    if |a| == 0 {
      assert a + [sep] + b == [sep] + b;
      SplitCons(sep, b, sep);
    } else {
      SplitAround(a[1..], sep, b);
      SplitAroundStep(a[0], a[1..], sep, b);
      assert a == [a[0]] + a[1..];
      assert a + [sep] + b == [a[0]] + (a[1..] + [sep] + b);
    }
  }

  /** The inductive step of `SplitAround`: putting one more character in front. */
  lemma SplitAroundStep(c: char, a: string, sep: char, b: string)
    requires Split(a + [sep] + b, sep) == Split(a, sep) + Split(b, sep)
    ensures Split([c] + (a + [sep] + b), sep) == Split([c] + a, sep) + Split(b, sep)
  {
    var t := a + [sep] + b;
    SplitCons(c, t, sep);
    SplitCons(c, a, sep);
    if c == sep {
      PrependAssoc([""], Split(a, sep), Split(b, sep));
    } else {
      var restA := Split(a, sep);
      HeadTailAppend(restA, Split(b, sep));
      PrependAssoc([[c] + restA[0]], restA[1..], Split(b, sep));
    }
  }

  lemma HeadTailAppend<T>(x: seq<T>, y: seq<T>)
    requires |x| >= 1
    ensures (x + y)[0] == x[0] && (x + y)[1..] == x[1..] + y
  {
  }

  lemma PrependAssoc<T>(x: seq<T>, y: seq<T>, z: seq<T>)
    ensures x + (y + z) == (x + y) + z
  {
  }

  /** Splitting a join of separator-free pieces gives the pieces back. */
  lemma {:induction false} SplitJoin(parts: seq<string>, sep: char)
    requires |parts| >= 1
    requires forall i :: 0 <= i < |parts| ==> sep !in parts[i]
    ensures Split(Join(parts, [sep]), sep) == parts
  {
    if |parts| == 1 {
      SplitNoSep(parts[0], sep);
    } else {
      SplitJoin(parts[1..], sep);
      SplitNoSep(parts[0], sep);
      SplitAround(parts[0], sep, Join(parts[1..], [sep]));
    }
  }

  /** `s.split(sep)[-1]`: the text after the last `sep`, or all of `s`. */
  function LastPiece(s: string, sep: char): string
  {
    var parts := Split(s, sep);
    parts[|parts| - 1]
  }

  /** The index of the last occurrence of `sep` in `s`. */
  function LastIndex(s: string, sep: char): (i: nat)
    requires sep in s
    ensures i < |s| && s[i] == sep
    ensures sep !in s[i + 1..]
  {
    if s[|s| - 1] == sep then |s| - 1
    else
      assert sep in s[..|s| - 1];
      LastIndex(s[..|s| - 1], sep)
  }

  /** `s.rsplit(sep, 1)`, for a text that contains `sep`: the text before and after its last occurrence. */
  function RSplitOnce(s: string, sep: char): (halves: (string, string))
    requires sep in s
    ensures s == halves.0 + [sep] + halves.1
    ensures sep !in halves.1
  {
    var i := LastIndex(s, sep);
    assert s == s[..i] + [sep] + s[i + 1..];
    (s[..i], s[i + 1..])
  }

  /** The piece after the last separator is determined by any decomposition
      `stem + sep + tail` whose tail has no separator. */
  lemma LastPieceOf(stem: string, sep: char, tail: string)
    requires sep !in tail
    ensures LastPiece(stem + [sep] + tail, sep) == tail
  {
    SplitAround(stem, sep, tail);
    SplitNoSep(tail, sep);
  }

  /** `rsplit(sep, 1)[1]` and `split(sep)[-1]` agree whenever the separator occurs,
      and the two halves of rsplit put back together give the text. */
  lemma RSplitOnceIsLastPiece(s: string, sep: char)
    requires sep in s
    ensures RSplitOnce(s, sep).1 == LastPiece(s, sep)
    ensures s == RSplitOnce(s, sep).0 + [sep] + RSplitOnce(s, sep).1
  {
    var i := LastIndex(s, sep);
    assert s == s[..i] + [sep] + s[i + 1..];
    LastPieceOf(s[..i], sep, s[i + 1..]);
  }

  /** Without the separator, `split(sep)[-1]` is the whole text. */
  lemma LastPieceNoSep(s: string, sep: char)
    requires sep !in s
    ensures LastPiece(s, sep) == s
  {
    SplitNoSep(s, sep);
  }

  predicate IsUpper(c: char) { 'A' <= c <= 'Z' }

  /** `str.lower` on one character, ASCII letters only. */
  function LowerChar(c: char): char
  {
    if IsUpper(c) then (c as int + 32) as char else c
  }

  /** `str.lower`, ASCII letters only. */
  function Lower(s: string): (r: string)
    ensures |r| == |s|
    ensures forall i :: 0 <= i < |s| ==> r[i] == LowerChar(s[i])
    ensures forall i :: 0 <= i < |r| ==> !IsUpper(r[i])
  {
    if |s| == 0 then "" else [LowerChar(s[0])] + Lower(s[1..])
  }

  predicate IsLetter(c: char) { IsUpper(c) || 'a' <= c <= 'z' }

  predicate HasUpper(s: string) { exists i :: 0 <= i < |s| && IsUpper(s[i]) }

  /** Lower-casing twice is lower-casing once. */
  lemma LowerIdempotent(a: string)
    ensures Lower(Lower(a)) == Lower(a)
  {
  }

  /** Lower-casing works character by character, so it distributes over concatenation. */
  lemma LowerAppend(a: string, b: string)
    ensures Lower(a + b) == Lower(a) + Lower(b)
  {
    assert forall i :: 0 <= i < |a + b| ==> Lower(a + b)[i] == (Lower(a) + Lower(b))[i];
  }

  /** A character that is not a letter occurs in the lower-cased text exactly where it occurs in the text. */
  lemma LowerKeeps(a: string, c: char)
    requires !IsLetter(c)
    ensures c in Lower(a) <==> c in a
  {
    if c in a {
      var i :| 0 <= i < |a| && a[i] == c;
      assert Lower(a)[i] == c;
    }
    if c in Lower(a) {
      var i :| 0 <= i < |a| && Lower(a)[i] == c;
      assert a[i] == c;
    }
  }

  /** A text is its own lower-case form exactly when it has no upper-case letter. */
  lemma LowerFixed(a: string)
    ensures Lower(a) == a <==> !HasUpper(a)
  {
    if Lower(a) == a {
      forall i | 0 <= i < |a| ensures !IsUpper(a[i]) { assert Lower(a)[i] == a[i]; }
    }
  }

  predicate IsDigit(c: char) { '0' <= c <= '9' }

  function Pow10(w: nat): (p: nat)
    ensures p >= 1
  {
    if w == 0 then 1 else 10 * Pow10(w - 1)
  }

  function DigitChar(d: nat): (c: char)
    requires d < 10
    ensures IsDigit(c)
  {
    (48 + d) as char
  }

  function DigitValue(c: char): (d: nat)
    requires IsDigit(c)
    ensures d < 10 && DigitChar(d) == c
  {
    c as int - 48
  }

  /** `n` written in decimal with exactly `width` digits, zero-padded on the left. */
  function Digits(n: nat, width: nat): (s: string)
    requires n < Pow10(width)
    ensures |s| == width
    ensures forall i :: 0 <= i < |s| ==> IsDigit(s[i])
  {
    if width == 0 then "" else Digits(n / 10, width - 1) + [DigitChar(n % 10)]
  }

  /** The number a string of decimal digits denotes. */
  function Value(s: string): (n: nat)
    requires forall i :: 0 <= i < |s| ==> IsDigit(s[i])
    ensures n < Pow10(|s|)
  {
    if |s| == 0 then 0 else 10 * Value(s[..|s| - 1]) + DigitValue(s[|s| - 1])
  }

  /** Reading back zero-padded digits gives the number. */
  lemma {:induction false} ValueOfDigits(n: nat, width: nat)
    requires n < Pow10(width)
    ensures Value(Digits(n, width)) == n
  {
    if width > 0 {
      ValueOfDigits(n / 10, width - 1);
      var s := Digits(n, width);
      assert s[..|s| - 1] == Digits(n / 10, width - 1);
    }
  }

  /** Writing back the number a digit string denotes, at its width, gives the string. */
  lemma {:induction false} DigitsOfValue(s: string)
    requires forall i :: 0 <= i < |s| ==> IsDigit(s[i])
    ensures Digits(Value(s), |s|) == s
  {
    if |s| > 0 {
      var init := s[..|s| - 1];
      DigitsOfValue(init);
      var n := Value(s);
      assert n / 10 == Value(init);
      assert n % 10 == DigitValue(s[|s| - 1]);
      assert s == init + [s[|s| - 1]];
    }
  }
}
