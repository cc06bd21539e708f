/** The parts of Rust's `str` API the puzzle parsers use, on strings of
    characters: `lines`, `split` on a character or a string, `trim`,
    `split_whitespace`, `find`, and `parse` into unsigned and signed integers
    (overflow is not modelled), plus `to_string` of an unsigned integer. */
module Text {
  import opened Common

  // ---------------------------------------------------------------------------
  // Characters

  /** `char::is_whitespace`: the Unicode White_Space property. */
  predicate IsWhitespace(c: char)
  {
    c == ' ' || ('\t' <= c <= '\r') || c == '\U{0085}' || c == '\U{00A0}' || c == '\U{1680}' ||
    ('\U{2000}' <= c <= '\U{200A}') || c == '\U{2028}' || c == '\U{2029}' || c == '\U{202F}' ||
    c == '\U{205F}' || c == '\U{3000}'
  }

  predicate IsDigit(c: char)
  {
    '0' <= c <= '9'
  }

  function DigitValue(c: char): (d: nat)
    requires IsDigit(c)
    ensures d < 10
  {
    (c as int) - ('0' as int)
  }

  function DigitChar(d: nat): (c: char)
    requires d < 10
    ensures IsDigit(c) && DigitValue(c) == d
  {
    (('0' as int) + d) as char
  }

  // ---------------------------------------------------------------------------
  // Searching

  /** `s[from..].find(c) + from`: the first occurrence of `c` at or after `from`. */
  function FindFrom(s: string, from: nat, c: char): (r: Option<nat>)
    requires from <= |s|
    ensures r.None? ==> forall k :: from <= k < |s| ==> s[k] != c
    ensures r.Some? ==> from <= r.value < |s| && s[r.value] == c &&
                        forall k :: from <= k < r.value ==> s[k] != c
    decreases |s| - from
  {
    if from == |s| then None
    else if s[from] == c then Some(from)
    else FindFrom(s, from + 1, c)
  }

  /** `s.find(c)`: the index of the first occurrence of `c`. */
  function Find(s: string, c: char): (r: Option<nat>)
    ensures r.None? ==> c !in s
    ensures r.Some? ==> r.value < |s| && s[r.value] == c && c !in s[..r.value]
  {
    FindFrom(s, 0, c)
  }

  /** A character found where nothing before it matches is the first occurrence. */
  lemma FindFromAt(s: string, from: nat, c: char, k: nat)
    requires from <= k < |s| && s[k] == c
    requires forall j :: from <= j < k ==> s[j] != c
    ensures FindFrom(s, from, c) == Some(k)
  {
  }

  predicate EndsWith(s: string, c: char)
  {
    |s| > 0 && s[|s| - 1] == c
  }

  // ---------------------------------------------------------------------------
  // Splitting on a character

  /** `s.split(sep)`: the pieces between occurrences of `sep`; there is always
      one more piece than there are separators. */
  function Split(s: string, sep: char): (pieces: seq<string>)
    ensures |pieces| >= 1
    ensures forall i :: 0 <= i < |pieces| ==> sep !in pieces[i]
  {
    if |s| == 0 then [""]
    else if s[0] == sep then [""] + Split(s[1..], sep)
    else
      var rest := Split(s[1..], sep);
      [[s[0]] + rest[0]] + rest[1..]
  }

  /** The pieces glued back together with `sep` between neighbours. */
  function Join(pieces: seq<string>, sep: char): string
    requires |pieces| >= 1
  {
    if |pieces| == 1 then pieces[0] else pieces[0] + [sep] + Join(pieces[1..], sep)
  }

  lemma {:induction false} JoinSplit(s: string, sep: char)
    ensures Join(Split(s, sep), sep) == s
  {
    if |s| > 0 {
      JoinSplit(s[1..], sep);
      var rest := Split(s[1..], sep);
      if s[0] != sep {
        if |rest| == 1 {
          assert Split(s, sep) == [[s[0]] + rest[0]];
        } else {
          assert Split(s, sep)[1..] == rest[1..];
        }
      }
    }
  }

  /** Splitting a join of separator-free pieces gives the pieces back. */
  lemma {:induction false} SplitJoin(pieces: seq<string>, sep: char)
    requires |pieces| >= 1 && forall i :: 0 <= i < |pieces| ==> sep !in pieces[i]
    ensures Split(Join(pieces, sep), sep) == pieces
    decreases |pieces|, |pieces[0]|
  {
    var p := pieces[0];
    if |p| == 0 {
      if |pieces| > 1 {
        assert Join(pieces, sep) == [sep] + Join(pieces[1..], sep);
        assert Join(pieces, sep)[1..] == Join(pieces[1..], sep);
        SplitJoin(pieces[1..], sep);
        assert [""] + pieces[1..] == pieces;
      }
    } else {
      var shorter := [p[1..]] + pieces[1..];
      SplitJoin(shorter, sep);
      assert Join(pieces, sep) == [p[0]] + Join(shorter, sep) by {
        if |pieces| > 1 {
          assert shorter[1..] == pieces[1..];
        }
      }
      assert Join(pieces, sep)[1..] == Join(shorter, sep);
      assert [p[0]] + p[1..] == p;
      assert [[p[0]] + p[1..]] + pieces[1..] == pieces;
    }
  }

  // ---------------------------------------------------------------------------
  // Splitting on a string

  predicate StartsWith(s: string, prefix: string)
  {
    |prefix| <= |s| && s[..|prefix|] == prefix
  }

  /** `s.split(sep)` for a non-empty string separator: cut at each leftmost
      non-overlapping occurrence. */
  function SplitOn(s: string, sep: string): (pieces: seq<string>)
    requires |sep| > 0
    ensures |pieces| >= 1
    decreases |s|
  {
    if |s| == 0 then [""]
    else if StartsWith(s, sep) then [""] + SplitOn(s[|sep|..], sep)
    else
      var rest := SplitOn(s[1..], sep);
      [[s[0]] + rest[0]] + rest[1..]
  }

  // ---------------------------------------------------------------------------
  // Lines

  function StripCR(line: string): string
  {
    if EndsWith(line, '\r') then line[..|line| - 1] else line
  }

  /** `s.lines()`: split at `\n`, drop a `\r` just before a `\n`, and yield no
      empty line after a final `\n`; the empty string has no lines. */
  function Lines(s: string): (lines: seq<string>)
    ensures forall i :: 0 <= i < |lines| ==> '\n' !in lines[i]
  {
    if |s| == 0 then []
    else
      var pieces := Split(s, '\n');
      var n := if EndsWith(s, '\n') then |pieces| - 1 else |pieces|;
      seq(n, i requires 0 <= i < n => if i < |pieces| - 1 then StripCR(pieces[i]) else pieces[i])
  }

  /** Lines joined with `\n` come back from `Lines` when none holds a `\n`
      or ends in `\r` and the last is not empty. */
  lemma LinesOfJoin(lines: seq<string>)
    requires |lines| >= 1 && |lines[|lines| - 1]| > 0
    requires forall i :: 0 <= i < |lines| ==> '\n' !in lines[i] && !EndsWith(lines[i], '\r')
    ensures Lines(Join(lines, '\n')) == lines
  {
    var s := Join(lines, '\n');
    SplitJoin(lines, '\n');
    JoinEnd(lines, '\n');
    assert !EndsWith(s, '\n');
  }

  /** A join ends with the end of its last piece. */
  lemma {:induction false} JoinEnd(pieces: seq<string>, sep: char)
    requires |pieces| >= 1 && |pieces[|pieces| - 1]| > 0
    ensures |Join(pieces, sep)| > 0
    ensures Join(pieces, sep)[|Join(pieces, sep)| - 1] == pieces[|pieces| - 1][|pieces[|pieces| - 1]| - 1]
    decreases |pieces|
  {
    if |pieces| > 1 {
      JoinEnd(pieces[1..], sep);
    }
  }

  // ---------------------------------------------------------------------------
  // Trimming and whitespace

  /** The number of whitespace characters at the start of `s`. */
  function LeadingSpace(s: string): (n: nat)
    ensures n <= |s|
  {
    if |s| > 0 && IsWhitespace(s[0]) then 1 + LeadingSpace(s[1..]) else 0
  }

  /** The number of whitespace characters at the end of `s`. */
  function TrailingSpace(s: string): (n: nat)
    ensures n <= |s|
  {
    if |s| > 0 && IsWhitespace(s[|s| - 1]) then 1 + TrailingSpace(s[..|s| - 1]) else 0
  }

  function TrimStart(s: string): string
  {
    s[LeadingSpace(s)..]
  }

  function TrimEnd(s: string): string
  {
    s[..|s| - TrailingSpace(s)]
  }

  /** `s.trim()`: the string without leading and trailing whitespace. */
  function Trim(s: string): string
  {
    TrimEnd(TrimStart(s))
  }

  lemma {:induction false} LeadingSpaceIsMaximal(s: string)
    ensures forall i {:trigger IsWhitespace(s[i])} :: 0 <= i < LeadingSpace(s) ==> IsWhitespace(s[i])
    ensures LeadingSpace(s) < |s| ==> !IsWhitespace(s[LeadingSpace(s)])
  {
    if |s| > 0 && IsWhitespace(s[0]) {
      LeadingSpaceIsMaximal(s[1..]);
      assert forall i :: 1 <= i < |s| ==> s[1..][i - 1] == s[i];
    }
  }

  lemma {:induction false} TrailingSpaceIsMaximal(s: string)
    ensures forall i {:trigger IsWhitespace(s[i])} :: |s| - TrailingSpace(s) <= i < |s| ==> IsWhitespace(s[i])
    ensures TrailingSpace(s) < |s| ==> !IsWhitespace(s[|s| - TrailingSpace(s) - 1])
  {
    if |s| > 0 && IsWhitespace(s[|s| - 1]) {
      TrailingSpaceIsMaximal(s[..|s| - 1]);
    }
  }

  /** The trim is the slice between the leading and the trailing whitespace,
      and starts and ends with a character that is not whitespace. */
  lemma TrimIsSlice(s: string)
    ensures exists lo, hi :: (0 <= lo <= hi <= |s| && Trim(s) == s[lo..hi] &&
      (forall i {:trigger IsWhitespace(s[i])} :: 0 <= i < lo ==> IsWhitespace(s[i])) &&
      (forall i {:trigger IsWhitespace(s[i])} :: hi <= i < |s| ==> IsWhitespace(s[i])))
    ensures |Trim(s)| > 0 ==> !IsWhitespace(Trim(s)[0]) && !IsWhitespace(Trim(s)[|Trim(s)| - 1])
  {
    var lo := LeadingSpace(s);
    var t := s[lo..];
    var hi := lo + |t| - TrailingSpace(t);
    LeadingSpaceIsMaximal(s);
    TrailingSpaceIsMaximal(t);
    assert Trim(s) == s[lo..hi];
    forall i | hi <= i < |s|
      ensures IsWhitespace(s[i])
    {
      assert s[i] == t[i - lo];
    }
  }

  /** Spaces in front of a word are exactly its leading whitespace. */
  lemma {:induction false} LeadingSpaces(pre: nat, w: string)
    requires |w| > 0 && !IsWhitespace(w[0])
    ensures LeadingSpace(seq(pre, _ => ' ') + w) == pre
  {
    if pre > 0 {
      LeadingSpaces(pre - 1, w);
      assert (seq(pre, _ => ' ') + w)[1..] == seq(pre - 1, _ => ' ') + w;
    } else {
      assert seq(pre, _ => ' ') + w == w;
    }
  }

  /** Spaces after a word are exactly its trailing whitespace. */
  lemma {:induction false} TrailingSpaces(w: string, post: nat)
    requires |w| > 0 && !IsWhitespace(w[|w| - 1])
    ensures TrailingSpace(w + seq(post, _ => ' ')) == post
  {
    var s := w + seq(post, _ => ' ');
    if post > 0 {
      TrailingSpaces(w, post - 1);
      assert s[..|s| - 1] == w + seq(post - 1, _ => ' ');
    } else {
      assert s == w;
    }
  }

  /** Trimming a word padded with spaces on both sides gives back the word. */
  lemma TrimPadded(pre: nat, w: string, post: nat)
    requires |w| > 0 && !IsWhitespace(w[0]) && !IsWhitespace(w[|w| - 1])
    ensures Trim(seq(pre, _ => ' ') + w + seq(post, _ => ' ')) == w
  {
    var tail := w + seq(post, _ => ' ');
    var s := seq(pre, _ => ' ') + tail;
    assert seq(pre, _ => ' ') + w + seq(post, _ => ' ') == s;
    assert tail[0] == w[0];
    LeadingSpaces(pre, tail);
    assert TrimStart(s) == tail;
    TrailingSpaces(w, post);
  }

  /** A string without whitespace at either end is its own trim. */
  lemma TrimOfTrimmed(s: string)
    requires |s| > 0 ==> !IsWhitespace(s[0]) && !IsWhitespace(s[|s| - 1])
    ensures Trim(s) == s
  {
    assert LeadingSpace(s) == 0;
    assert s[0..] == s;
    assert TrailingSpace(s) == 0;
  }

  /** `s.split_whitespace()`: the maximal runs of non-whitespace characters. */
  function SplitWhitespace(s: string): (words: seq<string>)
    ensures forall i :: 0 <= i < |words| ==> IsWord(words[i])
    decreases |s|
  {
    if |s| == 0 then []
    else if IsWhitespace(s[0]) then SplitWhitespace(s[1..])
    else
      var n := WordLength(s);
      [s[..n]] + SplitWhitespace(s[n..])
  }

  predicate IsWord(w: string)
  {
    |w| > 0 && forall k {:trigger IsWhitespace(w[k])} :: 0 <= k < |w| ==> !IsWhitespace(w[k])
  }

  /** Length of the leading run of non-whitespace characters. */
  function WordLength(s: string): (n: nat)
    ensures n <= |s| && (n < |s| ==> IsWhitespace(s[n]))
    ensures forall k {:trigger IsWhitespace(s[k])} :: 0 <= k < n ==> !IsWhitespace(s[k])
    ensures |s| > 0 && !IsWhitespace(s[0]) ==> n > 0
  {
    if |s| == 0 || IsWhitespace(s[0]) then 0 else 1 + WordLength(s[1..])
  }

  // ---------------------------------------------------------------------------
  // Numbers

  predicate AllDigits(s: string)
  {
    forall i :: 0 <= i < |s| ==> IsDigit(s[i])
  }

  /** The value of a string of decimal digits, most significant first. */
  function DigitsValue(s: string): nat
    requires AllDigits(s)
  {
    if |s| == 0 then 0 else 10 * DigitsValue(s[..|s| - 1]) + DigitValue(s[|s| - 1])
  }

  /** `s.parse::<u64>()` (also `usize`): an optional `+`, then at least one digit. */
  function ParseNat(s: string): (r: Option<nat>)
    ensures r.Some? ==> |s| > 0
  {
    var digits := if |s| > 0 && s[0] == '+' then s[1..] else s;
    if |digits| > 0 && AllDigits(digits) then Some(DigitsValue(digits)) else None
  }

  /** `s.parse::<i64>()` (also `i32`): an optional `+` or `-`, then at least one digit. */
  function ParseInt(s: string): (r: Option<int>)
  {
    if |s| > 0 && s[0] == '-' then
      var digits := s[1..];
      if |digits| > 0 && AllDigits(digits) then Some(0 - DigitsValue(digits)) else None
    else
      match ParseNat(s) case None => None case Some(n) => Some(n)
  }

  /** `n.to_string()`: decimal digits without leading zeros, "0" for zero. */
  function DecimalString(n: nat): (s: string)
    ensures |s| > 0 && AllDigits(s) && (|s| > 1 ==> s[0] != '0')
  {
    if n < 10 then [DigitChar(n)] else DecimalString(n / 10) + [DigitChar(n % 10)]
  }

  lemma {:induction false} DecimalStringValue(n: nat)
    ensures DigitsValue(DecimalString(n)) == n
  {
    if n >= 10 {
      DecimalStringValue(n / 10);
      var s := DecimalString(n);
      assert s[..|s| - 1] == DecimalString(n / 10);
    }
  }

  /** Parsing undoes `to_string`. */
  lemma ParseDecimal(n: nat)
    ensures ParseNat(DecimalString(n)) == Some(n)
    ensures ParseInt(DecimalString(n)) == Some(n)
  {
    DecimalStringValue(n);
  }

  /** `to_string` of a signed integer: a `-` before a negative value's digits. */
  function SignedString(v: int): (s: string)
    ensures |s| > 0
  {
    if v < 0 then "-" + DecimalString(-v) else DecimalString(v)
  }

  lemma ParseSigned(v: int)
    ensures ParseInt(SignedString(v)) == Some(v)
  {
    if v < 0 {
      DecimalStringValue(-v);
      assert SignedString(v)[1..] == DecimalString(-v);
    } else {
      ParseDecimal(v);
    }
  }

  // ---------------------------------------------------------------------------
  // Splitting what was joined

  /** A string without the separator's first character is one piece. */
  lemma {:induction false} SplitOnPlain(s: string, sep: string)
    requires |sep| > 0 && sep[0] !in s
    ensures SplitOn(s, sep) == [s]
    decreases |s|
  {
    if |s| > 0 {
      assert s[1..] == s[1..] && sep[0] !in s[1..] by {
        forall k | 0 <= k < |s[1..]| ensures s[1..][k] != sep[0] {
          assert s[1..][k] == s[k + 1];
        }
      }
      SplitOnPlain(s[1..], sep);
      assert [s[0]] + s[1..] == s;
    }
  }

  /** The first piece ends at the first separator. */
  lemma {:induction false} SplitOnFirst(a: string, b: string, sep: string)
    requires |sep| > 0 && sep[0] !in a
    ensures SplitOn(a + sep + b, sep) == [a] + SplitOn(b, sep)
    decreases |a|
  {
    var s := a + sep + b;
    if |a| == 0 {
      assert s == sep + b;
      assert StartsWith(s, sep) && s[|sep|..] == b;
    } else {
      assert s[0] == a[0];
      assert sep[0] !in a[1..] by {
        forall k | 0 <= k < |a[1..]| ensures a[1..][k] != sep[0] {
          assert a[1..][k] == a[k + 1];
        }
      }
      SplitOnFirst(a[1..], b, sep);
      assert s[1..] == a[1..] + sep + b;
      assert [a[0]] + a[1..] == a;
    }
  }

  /** No two newlines in a row: `s` holds no blank line. */
  ghost predicate BlankLineFree(s: string)
  {
    forall k :: 0 <= k < |s| - 1 ==> !(s[k] == '\n' && s[k + 1] == '\n')
  }

  /** Text without a blank line is a single `\n\n`-separated part. */
  lemma {:induction false} SplitBlankLineFree(s: string)
    requires BlankLineFree(s)
    ensures SplitOn(s, "\n\n") == [s]
    decreases |s|
  {
    if |s| > 0 {
      assert !StartsWith(s, "\n\n") by {
        if |s| >= 2 {
          assert !(s[0] == '\n' && s[1] == '\n');
        }
      }
      assert BlankLineFree(s[1..]) by {
        forall k | 0 <= k < |s[1..]| - 1
          ensures !(s[1..][k] == '\n' && s[1..][k + 1] == '\n')
        {
          assert s[1..][k] == s[k + 1] && s[1..][k + 1] == s[k + 2];
        }
      }
      SplitBlankLineFree(s[1..]);
      assert [s[0]] + s[1..] == s;
    }
  }

  /** The first blank line after text without one, that does not end in a
      newline, is the first cut. */
  lemma {:induction false} SplitAtBlankLine(a: string, b: string)
    requires BlankLineFree(a) && (|a| > 0 ==> a[|a| - 1] != '\n')
    ensures SplitOn(a + "\n\n" + b, "\n\n") == [a] + SplitOn(b, "\n\n")
    decreases |a|
  {
    var s := a + "\n\n" + b;
    if |a| == 0 {
      assert s == "\n\n" + b;
      assert StartsWith(s, "\n\n") && s[2..] == b;
    } else {
      assert s[0] == a[0];
      assert !StartsWith(s, "\n\n") by {
        if |a| >= 2 {
          assert s[1] == a[1];
          assert !(a[0] == '\n' && a[1] == '\n');
        } else {
          assert a[0] != '\n';
        }
      }
      var a' := a[1..];
      assert BlankLineFree(a') by {
        forall k | 0 <= k < |a'| - 1
          ensures !(a'[k] == '\n' && a'[k + 1] == '\n')
        {
          assert a'[k] == a[k + 1] && a'[k + 1] == a[k + 2];
        }
      }
      SplitAtBlankLine(a', b);
      assert s[1..] == a' + "\n\n" + b;
      assert [a[0]] + a' == a;
    }
  }

  /** Non-empty lines without newlines, joined by `\n`, hold no blank line
      and neither start nor end with a newline. */
  lemma {:induction false} JoinBlankLineFree(lines: seq<string>)
    requires |lines| >= 1 && forall i :: 0 <= i < |lines| ==> |lines[i]| > 0 && '\n' !in lines[i]
    ensures var s := Join(lines, '\n');
      |s| > 0 && s[0] != '\n' && s[|s| - 1] != '\n' && BlankLineFree(s)
    decreases |lines|
  {
    var p := lines[0];
    var s := Join(lines, '\n');
    if |lines| == 1 {
      assert s == p;
      assert forall k :: 0 <= k < |p| ==> p[k] != '\n';
    } else {
      var rest := Join(lines[1..], '\n');
      JoinBlankLineFree(lines[1..]);
      assert s == p + "\n" + rest;
      forall k | 0 <= k < |s| - 1
        ensures !(s[k] == '\n' && s[k + 1] == '\n')
      {
        if k < |p| {
          assert s[k] == p[k];
        } else if k == |p| {
          assert s[k + 1] == rest[0];
        } else {
          assert s[k] == rest[k - |p| - 1] && s[k + 1] == rest[k - |p|];
        }
      }
      assert s[|s| - 1] == rest[|rest| - 1];
      assert s[0] == p[0];
    }
  }

  /** Words separated by single spaces split back into those words. */
  lemma {:induction false} SplitWhitespaceJoin(words: seq<string>)
    requires |words| >= 1 && forall i :: 0 <= i < |words| ==> IsWord(words[i])
    ensures SplitWhitespace(Join(words, ' ')) == words
    decreases |words|
  {
    var w := words[0];
    var s := Join(words, ' ');
    var tail := if |words| == 1 then "" else [' '] + Join(words[1..], ' ');
    assert s == w + tail;
    WordOfJoin(w, tail);
    assert s[..|w|] == w && s[|w|..] == tail;
    if |words| > 1 {
      SplitWhitespaceJoin(words[1..]);
      assert tail[1..] == Join(words[1..], ' ');
      assert SplitWhitespace(tail) == SplitWhitespace(Join(words[1..], ' '));
      assert [w] + words[1..] == words;
    }
  }

  /** A word followed by nothing or by whitespace is read whole. */
  lemma {:induction false} WordOfJoin(w: string, tail: string)
    requires IsWord(w) && (|tail| == 0 || IsWhitespace(tail[0]))
    ensures WordLength(w + tail) == |w|
    decreases |w|
  {
    var s := w + tail;
    assert s[0] == w[0] && !IsWhitespace(w[0]);
    if |w| > 1 {
      assert IsWord(w[1..]) by {
        forall k | 0 <= k < |w[1..]| ensures !IsWhitespace(w[1..][k]) {
          assert w[1..][k] == w[k + 1];
        }
      }
      WordOfJoin(w[1..], tail);
      assert s[1..] == w[1..] + tail;
    } else {
      assert s[1..] == tail;
    }
  }
}
