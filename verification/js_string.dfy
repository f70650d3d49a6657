/** The JavaScript `String` operations the helpers rely on, restated over
    `seq<char>`: `split` on a one-character separator, `replace` of every
    occurrence of a character by nothing, and `toLowerCase`. */
module JsString {

  /** Number of occurrences of `c` in `s`. */
  function Count(s: string, c: char): (n: nat)
    ensures n == 0 <==> c !in s
    ensures n <= |s|
  {
    if |s| == 0 then 0 else (if s[0] == c then 1 else 0) + Count(s[1..], c)
  }

  /** `s.split(sep)` for a one-character separator: the maximal runs of
      characters between separators, including empty ones at either end. */
  function Split(s: string, sep: char): (pieces: seq<string>)
    ensures |pieces| == Count(s, sep) + 1
    ensures forall i :: 0 <= i < |pieces| ==> sep !in pieces[i]
  {
    if |s| == 0 then [""]
    else
      var rest := Split(s[1..], sep);
      if s[0] == sep then [""] + rest
      else [[s[0]] + rest[0]] + rest[1..]
  }

  /** `pieces.join(sep)`: the pieces with one separator between neighbours. */
  function Join(pieces: seq<string>, sep: char): string
  {
    if |pieces| == 0 then ""
    else if |pieces| == 1 then pieces[0]
    else pieces[0] + [sep] + Join(pieces[1..], sep)
  }

  /** `s.replace(/c/g, "")`: every occurrence of `c` removed. */
  function RemoveAll(s: string, c: char): (r: string)
    ensures c !in r
    ensures |r| == |s| - Count(s, c)
  {
    if |s| == 0 then ""
    else (if s[0] == c then "" else [s[0]]) + RemoveAll(s[1..], c)
  }

  /** Lower-case mapping of one character: the ASCII capitals, and the
      KELVIN SIGN, the one non-ASCII character whose lower case is a single
      ASCII letter. */
  function LowerChar(ch: char): char
  {
    if 'A' <= ch <= 'Z' then (ch as int + 32) as char
    else if ch == '\U{212A}' then 'k'
    else ch
  }

  /** `s.toLowerCase()`, restricted to the mapping of `LowerChar`. */
  function ToLower(s: string): (r: string)
    ensures |r| == |s|
    ensures forall i :: 0 <= i < |r| ==> !('A' <= r[i] <= 'Z')
  {
    seq(|s|, i requires 0 <= i < |s| => LowerChar(s[i]))
  }

  /** The last element of a non-empty sequence (`Array.prototype.pop`'s result). */
  function Last<T>(xs: seq<T>): T
    requires |xs| > 0
  {
    xs[|xs| - 1]
  }

  /** True when `b` is `a` with some ASCII letters switched between upper
      and lower case. */
  predicate SameUpToAsciiCase(a: string, b: string)
  {
    && |a| == |b|
    && forall i :: 0 <= i < |a| ==>
         a[i] == b[i] || ('a' <= a[i] <= 'z' && b[i] as int == a[i] as int - 32)
         || ('A' <= a[i] <= 'Z' && b[i] as int == a[i] as int + 32)
  }

  // ---------------------------------------------------------------- lemmas

  /** Joining the pieces of a split with the same separator restores the
      string. */
  lemma {:induction false} JoinSplit(s: string, sep: char)
    ensures Join(Split(s, sep), sep) == s
    decreases |s|
  {
    if |s| > 0 {
      JoinSplit(s[1..], sep);
      if s[0] == sep {
        JoinSplitAtSeparator(s, sep);
      } else {
        JoinSplitInPiece(s, sep);
      }
    }
  }

  /** The step of `JoinSplit` for a string that starts with the separator. */
  lemma JoinSplitAtSeparator(s: string, sep: char)
    requires |s| > 0 && s[0] == sep
    requires Join(Split(s[1..], sep), sep) == s[1..]
    ensures Join(Split(s, sep), sep) == s
  {
    var rest := Split(s[1..], sep);
    var pieces := [""] + rest;
    SplitStep(s, sep);
    JoinStep(pieces, sep);
    assert pieces[0] == "" && pieces[1..] == rest;
    assert "" + [sep] + s[1..] == s;
  }

  /** One unfolding of `Join` on two or more pieces. */
  lemma JoinStep(pieces: seq<string>, sep: char)
    requires |pieces| > 1
    ensures Join(pieces, sep) == pieces[0] + [sep] + Join(pieces[1..], sep)
  {
  }

  /** The step of `JoinSplit` for a string that starts with another character. */
  lemma JoinSplitInPiece(s: string, sep: char)
    requires |s| > 0 && s[0] != sep
    requires Join(Split(s[1..], sep), sep) == s[1..]
    ensures Join(Split(s, sep), sep) == s
  {
    var rest := Split(s[1..], sep);
    SplitStep(s, sep);
    JoinConsFirst(s[0], rest, sep);
    assert [s[0]] + s[1..] == s;
  }

  /** Prepending a character to the first piece prepends it to the join. */
  lemma JoinConsFirst(c: char, pieces: seq<string>, sep: char)
    requires |pieces| >= 1
    ensures Join([[c] + pieces[0]] + pieces[1..], sep) == [c] + Join(pieces, sep)
  {
    var ps := [[c] + pieces[0]] + pieces[1..];
    if |pieces| > 1 {
      assert ps[1..] == pieces[1..];
    }
  }

  /** A piece free of the separator, followed by the separator, splits off
      as exactly one piece. */
  lemma {:induction false} SplitAfterPiece(p: string, t: string, sep: char)
    requires sep !in p
    ensures Split(p + [sep] + t, sep) == [p] + Split(t, sep)
    decreases |p|
  {
    var s := p + [sep] + t;
    if |p| == 0 {
      assert s == [sep] + t;
      assert s[1..] == t;
    } else {
      assert s[1..] == p[1..] + [sep] + t;
      SplitAfterPiece(p[1..], t, sep);
      assert [p[0]] + p[1..] == p;
    }
  }

  /** A string free of the separator splits into itself alone. */
  lemma {:induction false} SplitWithoutSeparator(p: string, sep: char)
    requires sep !in p
    ensures Split(p, sep) == [p]
    decreases |p|
  {
    if |p| > 0 {
      SplitWithoutSeparator(p[1..], sep);
      assert [p[0]] + p[1..] == p;
    }
  }

  /** Splitting a join of separator-free pieces gives the pieces back. */
  lemma {:induction false} SplitJoin(pieces: seq<string>, sep: char)
    requires |pieces| >= 1
    requires forall i :: 0 <= i < |pieces| ==> sep !in pieces[i]
    ensures Split(Join(pieces, sep), sep) == pieces
    decreases |pieces|
  {
    if |pieces| == 1 {
      SplitWithoutSeparator(pieces[0], sep);
    } else {
      SplitJoin(pieces[1..], sep);
      SplitAfterPiece(pieces[0], Join(pieces[1..], sep), sep);
      assert [pieces[0]] + pieces[1..] == pieces;
    }
  }

  /** Removing `c` keeps every other character, as often as it occurred. */
  lemma {:induction false} RemoveAllKeepsOthers(s: string, c: char, d: char)
    requires d != c
    ensures Count(RemoveAll(s, c), d) == Count(s, d)
    decreases |s|
  {
    if |s| > 0 {
      RemoveAllKeepsOthers(s[1..], c, d);
      CountAppend((if s[0] == c then "" else [s[0]]), RemoveAll(s[1..], c), d);
    }
  }

  /** Removing `c` from a string that has none changes nothing. */
  lemma {:induction false} RemoveAllAbsent(s: string, c: char)
    requires c !in s
    ensures RemoveAll(s, c) == s
    decreases |s|
  {
    if |s| > 0 {
      RemoveAllAbsent(s[1..], c);
      assert [s[0]] + s[1..] == s;
    }
  }

  lemma {:induction false} CountAppend(a: string, b: string, c: char)
    ensures Count(a + b, c) == Count(a, c) + Count(b, c)
    decreases |a|
  {
    if |a| > 0 {
      assert (a + b)[0] == a[0];
      assert (a + b)[1..] == a[1..] + b;
      CountAppend(a[1..], b, c);
    } else {
      assert a + b == b;
    }
  }

  /** Lower-casing each piece of a split on '.' is the same as splitting the
      lower-cased string: lower-casing neither creates nor removes dots. */
  lemma {:induction false} SplitToLower(s: string)
    ensures Split(ToLower(s), '.') == LowerEach(Split(s, '.'))
    decreases |s|
  {
    if |s| > 0 {
      SplitToLower(s[1..]);
      if s[0] == '.' {
        SplitToLowerAtDot(s);
      } else {
        SplitToLowerInPiece(s);
      }
    }
  }

  /** The step of `SplitToLower` for a string that starts with a dot. */
  lemma SplitToLowerAtDot(s: string)
    requires |s| > 0 && s[0] == '.'
    requires Split(ToLower(s[1..]), '.') == LowerEach(Split(s[1..], '.'))
    ensures Split(ToLower(s), '.') == LowerEach(Split(s, '.'))
  {
    var l := ToLower(s);
    ToLowerTail(s);
    SplitStep(l, '.');
    SplitStep(s, '.');
    LowerEachCons("", Split(s[1..], '.'));
  }

  /** The step of `SplitToLower` for a string that starts with another character. */
  lemma SplitToLowerInPiece(s: string)
    requires |s| > 0 && s[0] != '.'
    requires Split(ToLower(s[1..]), '.') == LowerEach(Split(s[1..], '.'))
    ensures Split(ToLower(s), '.') == LowerEach(Split(s, '.'))
  {
    var l := ToLower(s);
    var rest := Split(s[1..], '.');
    ToLowerTail(s);
    assert l[0] != '.';
    SplitStep(l, '.');
    SplitStep(s, '.');
    LowerEachTail(rest);
    ToLowerCons(s[0], rest[0]);
    LowerEachCons([s[0]] + rest[0], rest[1..]);
  }

  lemma LowerEachTail(ps: seq<string>)
    requires |ps| > 0
    ensures LowerEach(ps)[0] == ToLower(ps[0])
    ensures LowerEach(ps)[1..] == LowerEach(ps[1..])
  {
  }

  lemma ToLowerTail(s: string)
    requires |s| > 0
    ensures ToLower(s)[1..] == ToLower(s[1..])
    ensures ToLower(s)[0] == LowerChar(s[0])
  {
  }

  lemma ToLowerCons(c: char, t: string)
    ensures ToLower([c] + t) == [LowerChar(c)] + ToLower(t)
  {
  }

  lemma LowerEachCons(p: string, ps: seq<string>)
    ensures LowerEach([p] + ps) == [ToLower(p)] + LowerEach(ps)
  {
  }

  /** Every piece lower-cased. */
  function LowerEach(pieces: seq<string>): (r: seq<string>)
    ensures |r| == |pieces|
  {
    seq(|pieces|, i requires 0 <= i < |pieces| => ToLower(pieces[i]))
  }

  /** Strings that differ only in ASCII case lower-case to the same string. */
  lemma ToLowerIgnoresAsciiCase(a: string, b: string)
    requires SameUpToAsciiCase(a, b)
    ensures ToLower(a) == ToLower(b)
  {
    forall i | 0 <= i < |a|
      ensures ToLower(a)[i] == ToLower(b)[i]
    {
      if 'a' <= a[i] <= 'z' && b[i] as int == a[i] as int - 32 {
        assert LowerChar(b[i]) == a[i];
      }
    }
  }

  /** The last piece of a split is the tail of the string after the last
      separator, or the whole string when there is no separator. */
  lemma {:induction false} LastPieceIsTail(s: string, sep: char)
    ensures var t := Last(Split(s, sep));
      && |t| <= |s|
      && t == s[|s| - |t|..]
      && (sep !in s ==> t == s)
      && (sep in s ==> |t| < |s| && s[|s| - |t| - 1] == sep)
    decreases |s|
  {
    if |s| > 0 {
      var t := Last(Split(s, sep));
      var u := Last(Split(s[1..], sep));
      LastPieceIsTail(s[1..], sep);
      LastPieceOfCons(s, sep);
      if s[0] == sep || sep in s[1..] {
        assert s[1..][|s[1..]| - |u|..] == s[|s| - |u|..];
        if sep in s[1..] {
          assert s[1..][|s[1..]| - |u| - 1] == s[|s| - |u| - 1];
        }
      }
    }
  }

  /** One step of `LastPieceIsTail`: a separator in the string, at its head
      or further on, leaves the last piece to the tail's split. */
  lemma LastPieceOfCons(s: string, sep: char)
    requires |s| > 0
    ensures s[0] == sep || sep in s[1..] ==> Last(Split(s, sep)) == Last(Split(s[1..], sep))
    ensures s[0] != sep && sep !in s[1..] ==> Last(Split(s, sep)) == s
  {
    if s[0] == sep {
      LastPieceAfterSeparator(s, sep);
    } else if sep in s[1..] {
      LastPieceBeforeSeparator(s, sep);
    } else {
      assert s == [s[0]] + s[1..];
      SplitWithoutSeparator(s, sep);
    }
  }

  lemma LastPieceAfterSeparator(s: string, sep: char)
    requires |s| > 0 && s[0] == sep
    ensures Last(Split(s, sep)) == Last(Split(s[1..], sep))
  {
    var rest := Split(s[1..], sep);
    SplitStep(s, sep);
    LastOfAppend([""], rest);
  }

  lemma LastPieceBeforeSeparator(s: string, sep: char)
    requires |s| > 0 && s[0] != sep && Count(s[1..], sep) > 0
    ensures Last(Split(s, sep)) == Last(Split(s[1..], sep))
  {
    var rest := Split(s[1..], sep);
    assert |rest| > 1;
    SplitStep(s, sep);
    LastAfterReplacingHead([s[0]] + rest[0], rest);
  }

  /** One unfolding of `Split`. */
  lemma SplitStep(s: string, sep: char)
    requires |s| > 0
    ensures s[0] == sep ==> Split(s, sep) == [""] + Split(s[1..], sep)
    ensures s[0] != sep ==> Split(s, sep) == [[s[0]] + Split(s[1..], sep)[0]] + Split(s[1..], sep)[1..]
  {
  }

  lemma LastAfterReplacingHead<T>(x: T, xs: seq<T>)
    requires |xs| > 1
    ensures Last([x] + xs[1..]) == Last(xs)
  {
  }

  lemma LastOfAppend<T>(a: seq<T>, b: seq<T>)
    requires |b| > 0
    ensures Last(a + b) == Last(b)
  {
  }

  // ------------------------------------------------- decimal numerals

  /** True when `s` is a non-empty run of decimal digits. */
  predicate IsDigits(s: string)
  {
    |s| >= 1 && forall i :: 0 <= i < |s| ==> '0' <= s[i] <= '9'
  }

  /** The value of a run of decimal digits. */
  function ParseDecimal(s: string): nat
    requires forall i :: 0 <= i < |s| ==> '0' <= s[i] <= '9'
  {
    if |s| == 0 then 0
    else ParseDecimal(s[..|s| - 1]) * 10 + (s[|s| - 1] as int - '0' as int)
  }

  /** `String(n)` for a non-negative integer: its shortest decimal numeral. */
  function NatToString(n: nat): (s: string)
    ensures IsDigits(s)
    ensures ParseDecimal(s) == n
    ensures s[0] == '0' ==> s == "0"
  {
    var d := ('0' as int + n % 10) as char;
    if n < 10 then [d]
    else
      var init := NatToString(n / 10);
      var s := init + [d];
      assert s[..|s| - 1] == init;
      s
  }

  /** True when `s` ends with `suffix`. */
  predicate EndsWith(s: string, suffix: string)
  {
    |suffix| <= |s| && s[|s| - |suffix|..] == suffix
  }

  /** A character absent from the string is absent from every piece. */
  lemma {:induction false} SplitPiecesAvoid(s: string, sep: char, x: char)
    requires x !in s
    ensures forall i :: 0 <= i < |Split(s, sep)| ==> x !in Split(s, sep)[i]
    decreases |s|
  {
    if |s| > 0 {
      SplitPiecesAvoid(s[1..], sep, x);
      assert x != s[0];
    }
  }

  lemma ConcatAssoc<T>(x: seq<T>, y: seq<T>, z: seq<T>)
    ensures x + (y + z) == (x + y) + z
  {
  }

  /** One unfolding of `RemoveAll`. */
  lemma RemoveAllStep(s: string, c: char)
    requires |s| > 0
    ensures RemoveAll(s, c) == (if s[0] == c then "" else [s[0]]) + RemoveAll(s[1..], c)
  {
  }

  lemma {:induction false} RemoveAllAppend(a: string, b: string, c: char)
    ensures RemoveAll(a + b, c) == RemoveAll(a, c) + RemoveAll(b, c)
    decreases |a|
  {
    if |a| > 0 {
      assert (a + b)[0] == a[0];
      assert (a + b)[1..] == a[1..] + b;
      RemoveAllAppend(a[1..], b, c);
      RemoveAllStep(a + b, c);
      RemoveAllStep(a, c);
      ConcatAssoc(if a[0] == c then "" else [a[0]], RemoveAll(a[1..], c), RemoveAll(b, c));
    } else {
      assert a + b == b;
    }
  }
}
