/** The JavaScript string operations the application relies on: `startsWith`,
    `endsWith`, `indexOf`, `includes`, `substring`, `split` on a one-character
    separator, `join`, `trim`, `toLowerCase` and `toUpperCase`.

    A JavaScript string is indexed by UTF-16 code units while a Dafny `string`
    is indexed by Unicode scalar values; every use in the application compares
    or cuts at positions found by `indexOf` in the same string, so the pieces
    it extracts are the same under either indexing. */
module JsString {

  /** The characters `String.prototype.trim` removes and the regular
      expression class `\s` matches: WhiteSpace and LineTerminator of
      ECMAScript (tab, vertical tab, form feed, space, no-break space, BOM,
      the space separators of category Zs, LF, CR, LS and PS). */
  predicate IsWhitespace(c: char) {
    || c == '\t' || c == '\n' || c == '\U{000B}' || c == '\U{000C}' || c == '\r'
    || c == ' ' || c == '\U{00A0}' || c == '\U{1680}'
    || ('\U{2000}' <= c <= '\U{200A}')
    || c == '\U{2028}' || c == '\U{2029}' || c == '\U{202F}' || c == '\U{205F}'
    || c == '\U{3000}' || c == '\U{FEFF}'
  }

  predicate AllWhitespace(s: string) {
    forall i :: 0 <= i < |s| ==> IsWhitespace(s[i])
  }

  /** `p` occurs in `s` starting at index `k`. */
  predicate OccursAt(s: string, p: string, k: int) {
    0 <= k && k + |p| <= |s| && s[k..k + |p|] == p
  }

  lemma OccursInPrefix(s: string, n: nat, p: string, k: int)
    requires n <= |s| && OccursAt(s[..n], p, k)
    ensures OccursAt(s, p, k)
  {
    assert s[k..k + |p|] == s[..n][k..k + |p|];
  }

  predicate StartsWith(s: string, p: string) {
    |p| <= |s| && s[..|p|] == p
  }

  predicate EndsWith(s: string, p: string) {
    |p| <= |s| && s[|s| - |p|..] == p
  }

  /** Clamps a position into `[0, n]`, as `substring` and `indexOf` do. */
  function Clamp(i: int, n: nat): (c: nat)
    ensures c <= n
  {
    if i < 0 then 0 else if i > n then n else i
  }

  /** The first occurrence of `p` at or after `start`, or -1. */
  function FirstOccurrence(s: string, p: string, start: nat): (r: int)
    requires start <= |s|
    ensures r == -1 || (start <= r && OccursAt(s, p, r))
    ensures r == -1 ==> forall k :: start <= k ==> !OccursAt(s, p, k)
    ensures r != -1 ==> forall k :: start <= k < r ==> !OccursAt(s, p, k)
    decreases |s| - start
  {
    if start + |p| > |s| then -1
    else if s[start..start + |p|] == p then start
    else FirstOccurrence(s, p, start + 1)
  }

  /** `s.indexOf(p, position)`. */
  function IndexOf(s: string, p: string, position: int): (r: int)
    ensures r == -1 || (Clamp(position, |s|) <= r && OccursAt(s, p, r))
    ensures r == -1 <==> forall k :: Clamp(position, |s|) <= k ==> !OccursAt(s, p, k)
    ensures r != -1 ==> forall k :: Clamp(position, |s|) <= k < r ==> !OccursAt(s, p, k)
  {
    FirstOccurrence(s, p, Clamp(position, |s|))
  }

  /** The text between a search position and the first occurrence of a
      one-character pattern after it does not contain that character. */
  lemma NoCharBeforeIndex(s: string, c: char, position: int)
    requires 0 <= position <= |s| && IndexOf(s, [c], position) != -1
    ensures c !in Substring(s, position, IndexOf(s, [c], position))
  {
    var e := IndexOf(s, [c], position);
    var t := s[position..e];
    forall j | 0 <= j < |t| ensures t[j] != c {
      assert !OccursAt(s, [c], position + j);
      assert s[position + j..position + j + 1][0] == t[j];
    }
  }

  /** `indexOf` returns `pos` when `p` occurs there and nowhere between the
      start of the search and `pos`. */
  lemma IndexOfIs(s: string, p: string, position: int, pos: int)
    requires Clamp(position, |s|) <= pos && OccursAt(s, p, pos)
    requires forall k :: Clamp(position, |s|) <= k < pos ==> !OccursAt(s, p, k)
    ensures IndexOf(s, p, position) == pos
  {
    assert IndexOf(s, p, position) != -1;
  }

  /** `s.includes(p)`. */
  predicate Includes(s: string, p: string) {
    IndexOf(s, p, 0) != -1
  }

  lemma IncludesIff(s: string, p: string)
    ensures Includes(s, p) <==> exists k :: OccursAt(s, p, k)
  {
    if Includes(s, p) {
      assert OccursAt(s, p, IndexOf(s, p, 0));
    }
  }

  /** The UTF-16 code units of `s`: what `s.length` counts and
      `s.charCodeAt(i)` returns. */
  function CodeUnits(s: string): (u: seq<int>)
    ensures |u| >= |s|
    ensures forall i :: 0 <= i < |u| ==> 0 <= u[i] < 0x10000
    decreases |s|
  {
    if |s| == 0 then []
    else
      var v := s[0] as int;
      var head := if v < 0x10000 then [v] else [0xD800 + (v - 0x10000) / 1024, 0xDC00 + (v - 0x10000) % 1024];
      head + CodeUnits(s[1..])
  }

  /** Every character of `s` lies in the Basic Multilingual Plane. */
  predicate IsBmp(s: string) {
    forall i :: 0 <= i < |s| ==> s[i] as int < 0x10000
  }

  /** A string of BMP characters has one code unit per character. */
  lemma {:induction false} CodeUnitsOfBmp(s: string)
    requires IsBmp(s)
    ensures CodeUnits(s) == seq(|s|, i requires 0 <= i < |s| => s[i] as int)
    decreases |s|
  {
    if |s| > 0 {
      CodeUnitsOfBmp(s[1..]);
    }
  }

  /** `s.substring(start, end)`: both ends clamped, swapped when reversed. */
  function Substring(s: string, start: int, end: int): (r: string)
    ensures 0 <= start <= end <= |s| ==> r == s[start..end]
    ensures 0 <= end <= start <= |s| ==> r == s[end..start]
    ensures |r| <= |s|
  {
    var a, b := Clamp(start, |s|), Clamp(end, |s|);
    if a <= b then s[a..b] else s[b..a]
  }

  /** `s.split(sep)` for a one-character separator. */
  function Split(s: string, sep: char): (parts: seq<string>)
    ensures |parts| >= 1
    ensures forall i :: 0 <= i < |parts| ==> sep !in parts[i]
    decreases |s|
  {
    if |s| == 0 then [""]
    else
      var rest := Split(s[1..], sep);
      if s[0] == sep then [""] + rest
      else [[s[0]] + rest[0]] + rest[1..]
  }

  /** `parts.join(sep)`. */
  function Join(parts: seq<string>, sep: string): string
    decreases |parts|
  {
    if |parts| == 0 then ""
    else if |parts| == 1 then parts[0]
    else parts[0] + sep + Join(parts[1..], sep)
  }

  /** A split yields one more piece than there are separators. */
  lemma {:induction false} SplitCount(s: string, sep: char)
    ensures |Split(s, sep)| == multiset(s)[sep] + 1
    decreases |s|
  {
    if |s| > 0 {
      SplitCount(s[1..], sep);
      assert s == [s[0]] + s[1..];
      assert multiset(s) == multiset{s[0]} + multiset(s[1..]);
    }
  }

  /** Joining the pieces of a split with the separator gives the string back. */
  lemma {:induction false} JoinSplit(s: string, sep: char)
    ensures Join(Split(s, sep), [sep]) == s
    decreases |s|
  {
    if |s| > 0 {
      var rest := Split(s[1..], sep);
      JoinSplit(s[1..], sep);
      assert s == [s[0]] + s[1..];
      if s[0] == sep {
        var parts := [""] + rest;
        assert Split(s, sep) == parts;
        assert parts[1..] == rest;
        assert Join(parts, [sep]) == "" + [sep] + Join(rest, [sep]);
      } else {
        var parts := [[s[0]] + rest[0]] + rest[1..];
        assert Split(s, sep) == parts;
        if |rest| == 1 {
          assert Join(parts, [sep]) == [s[0]] + rest[0];
        } else {
          assert parts[1..] == rest[1..];
          assert Join(parts, [sep]) == [s[0]] + rest[0] + [sep] + Join(rest[1..], [sep]);
          assert Join(rest, [sep]) == rest[0] + [sep] + Join(rest[1..], [sep]);
        }
      }
    }
  }

  /** Splitting a string that starts with a separator-free piece. */
  lemma {:induction false} SplitAfterPiece(a: string, t: string, sep: char)
    requires sep !in a
    ensures Split(a + t, sep) == [a + Split(t, sep)[0]] + Split(t, sep)[1..]
    decreases |a|
  {
    if |a| == 0 {
      assert a == "" && a + t == t;
      var st := Split(t, sep);
      assert st == [st[0]] + st[1..];
      assert a + st[0] == st[0];
    } else {
      var st := Split(t, sep);
      var inner := Split(a[1..] + t, sep);
      SplitAfterPiece(a[1..], t, sep);
      assert (a + t)[1..] == a[1..] + t;
      assert (a + t)[0] == a[0] && a[0] != sep;
      assert Split(a + t, sep) == [[a[0]] + inner[0]] + inner[1..];
      assert inner[0] == a[1..] + st[0];
      assert inner[1..] == st[1..];
      assert [a[0]] + (a[1..] + st[0]) == a + st[0];
    }
  }

  /** Splitting a join of separator-free pieces gives the pieces back. */
  lemma {:induction false} SplitJoin(parts: seq<string>, sep: char)
    requires |parts| >= 1
    requires forall i :: 0 <= i < |parts| ==> sep !in parts[i]
    ensures Split(Join(parts, [sep]), sep) == parts
    decreases |parts|
  {
    if |parts| == 1 {
      SplitAfterPiece(parts[0], "", sep);
      assert parts[0] + "" == parts[0];
    } else {
      SplitJoin(parts[1..], sep);
      var tail := Join(parts[1..], [sep]);
      assert Join(parts, [sep]) == parts[0] + ([sep] + tail);
      SplitAfterPiece(parts[0], [sep] + tail, sep);
      assert ([sep] + tail)[1..] == tail;
      assert ([sep] + tail)[0] == sep;
      assert Split([sep] + tail, sep) == [""] + parts[1..];
      assert parts[0] + "" == parts[0];
      assert parts == [parts[0]] + parts[1..];
    }
  }

  /** Appending one more piece to a non-empty join. */
  lemma {:induction false} JoinSnoc(parts: seq<string>, x: string, sep: string)
    requires |parts| >= 1
    ensures Join(parts + [x], sep) == Join(parts, sep) + sep + x
    decreases |parts|
  {
    if |parts| == 1 {
      assert parts + [x] == [parts[0], x];
      assert [parts[0], x][1..] == [x];
    } else {
      JoinSnoc(parts[1..], x, sep);
      assert (parts + [x])[1..] == parts[1..] + [x];
      assert (parts + [x])[0] == parts[0];
    }
  }

  /** The pieces of `a + sep + b` are those of `a` followed by `b`, when `b`
      holds no separator. */
  lemma SplitLastPiece(a: string, b: string, sep: char)
    requires sep !in b
    ensures Split(a + [sep] + b, sep) == Split(a, sep) + [b]
  {
    var ps := Split(a, sep);
    JoinSplit(a, sep);
    JoinSnoc(ps, b, [sep]);
    forall i | 0 <= i < |ps + [b]| ensures sep !in (ps + [b])[i] {
      if i < |ps| {
        assert (ps + [b])[i] == ps[i];
      }
    }
    SplitJoin(ps + [b], sep);
  }

  /** A string without the separator is a single piece. */
  lemma SplitNoSeparator(s: string, sep: char)
    requires sep !in s
    ensures Split(s, sep) == [s]
  {
    SplitJoin([s], sep);
  }

  /** `includes` of a one-character string is membership of that character. */
  lemma IncludesChar(s: string, c: char)
    ensures Includes(s, [c]) <==> c in s
  {
    IncludesIff(s, [c]);
    if c in s {
      var k :| 0 <= k < |s| && s[k] == c;
      assert s[k..k + 1] == [c];
      assert OccursAt(s, [c], k);
    }
    if Includes(s, [c]) {
      var k :| OccursAt(s, [c], k);
      assert s[k] == s[k..k + 1][0];
    }
  }

  function TrimStart(s: string): (r: string)
    ensures |r| <= |s| && r == s[|s| - |r|..]
    ensures AllWhitespace(s[..|s| - |r|])
    ensures r == "" || !IsWhitespace(r[0])
    decreases |s|
  {
    if |s| > 0 && IsWhitespace(s[0]) then
      var r := TrimStart(s[1..]);
      assert s[..|s| - |r|] == [s[0]] + s[1..][..|s| - 1 - |r|];
      assert s[1..][|s| - 1 - |r|..] == s[|s| - |r|..];
      r
    else s
  }

  function TrimEnd(s: string): (r: string)
    ensures |r| <= |s| && r == s[..|r|]
    ensures AllWhitespace(s[|r|..])
    ensures r == "" || !IsWhitespace(r[|r| - 1])
    decreases |s|
  {
    if |s| > 0 && IsWhitespace(s[|s| - 1]) then
      var r := TrimEnd(s[..|s| - 1]);
      assert s[|r|..] == s[..|s| - 1][|r|..] + [s[|s| - 1]];
      assert s[..|s| - 1][..|r|] == s[..|r|];
      r
    else s
  }

  /** `r` is `s` with only whitespace removed before index `a` and after
      `r`. */
  predicate StrippedAt(s: string, r: string, a: int) {
    0 <= a <= |s| - |r| && r == s[a..a + |r|] && AllWhitespace(s[..a]) && AllWhitespace(s[a + |r|..])
  }

  /** `s.trim()`. */
  function Trim(s: string): (r: string)
    ensures exists a :: StrippedAt(s, r, a)
    ensures r == "" || (!IsWhitespace(r[0]) && !IsWhitespace(r[|r| - 1]))
  {
    StrippedInTwoSteps(s, TrimStart(s), TrimEnd(TrimStart(s)));
    TrimEnd(TrimStart(s))
  }

  /** Cutting whitespace off the front, then off the back, strips `s`. */
  lemma StrippedInTwoSteps(s: string, t: string, r: string)
    requires |t| <= |s| && t == s[|s| - |t|..] && AllWhitespace(s[..|s| - |t|])
    requires t == "" || !IsWhitespace(t[0])
    requires |r| <= |t| && r == t[..|r|] && AllWhitespace(t[|r|..])
    requires r == "" || !IsWhitespace(r[|r| - 1])
    ensures StrippedAt(s, r, |s| - |t|)
    ensures r == "" || (!IsWhitespace(r[0]) && !IsWhitespace(r[|r| - 1]))
  {
    var a := |s| - |t|;
    assert t[|r|..] == s[a + |r|..];
  }

  lemma {:induction false} TrimStartAppend(s: string, t: string)
    ensures TrimStart(s + t) == if AllWhitespace(s) then TrimStart(t) else TrimStart(s) + t
    decreases |s|
  {
    if |s| == 0 {
      assert s + t == t;
    } else {
      assert (s + t)[1..] == s[1..] + t;
      assert (s + t)[0] == s[0];
      TrimStartAppend(s[1..], t);
      if IsWhitespace(s[0]) {
        assert AllWhitespace(s) <==> AllWhitespace(s[1..]);
      } else {
        assert !AllWhitespace(s);
      }
    }
  }

  lemma {:induction false} TrimEndPrepend(s: string, t: string)
    ensures TrimEnd(s + t) == if AllWhitespace(t) then TrimEnd(s) else s + TrimEnd(t)
    decreases |t|
  {
    if |t| > 0 {
      assert (s + t)[..|s + t| - 1] == s + t[..|t| - 1];
      TrimEndPrepend(s, t[..|t| - 1]);
      if AllWhitespace(t[..|t| - 1]) && IsWhitespace(t[|t| - 1]) {
        assert AllWhitespace(t);
      }
    } else {
      assert s + t == s;
    }
  }

  lemma {:induction false} TrimStartOfWhitespace(w: string)
    requires AllWhitespace(w)
    ensures TrimStart(w) == ""
    decreases |w|
  {
    if |w| > 0 {
      TrimStartOfWhitespace(w[1..]);
    }
  }

  /** Whitespace around a string never survives `trim`. */
  lemma TrimPadded(w1: string, s: string, w2: string)
    requires AllWhitespace(w1) && AllWhitespace(w2)
    ensures Trim(w1 + s + w2) == Trim(s)
  {
    assert w1 + s + w2 == w1 + (s + w2);
    TrimStartAppend(w1, s + w2);
    TrimStartAppend(s, w2);
    if AllWhitespace(s) {
      TrimStartOfWhitespace(s);
      TrimStartOfWhitespace(w2);
    } else {
      TrimEndPrepend(TrimStart(s), w2);
    }
  }

  function LowerChar(c: char): char {
    if 'A' <= c <= 'Z' then (c as int + 32) as char else c
  }

  function UpperChar(c: char): char {
    if 'a' <= c <= 'z' then (c as int - 32) as char else c
  }

  /** `s.toLowerCase()` on the ASCII letters. */
  function ToLower(s: string): (r: string)
    ensures |r| == |s|
  {
    seq(|s|, i requires 0 <= i < |s| => LowerChar(s[i]))
  }

  /** `s.toUpperCase()` on the ASCII letters. */
  function ToUpper(s: string): (r: string)
    ensures |r| == |s|
  {
    seq(|s|, i requires 0 <= i < |s| => UpperChar(s[i]))
  }
}
