/** The pieces of JavaScript's string semantics that the registry code relies on:
    `trim`, `split` on one character, `join`, `toLowerCase` and `includes`.
    A string is a sequence of Unicode scalar values, one `char` each, where
    JavaScript counts UTF-16 code units. */
module JsStrings {

  /** The code points `String.prototype.trim` removes and the regular-expression
      class `\s` matches: ECMAScript WhiteSpace and LineTerminator. */
  predicate IsSpace(c: char) {
    || c == ' ' || c == '\t' || c == '\n' || c == '\U{000B}' || c == '\U{000C}' || c == '\r'
    || c == '\U{00A0}' || c == '\U{1680}' || ('\U{2000}' <= c <= '\U{200A}')
    || c == '\U{2028}' || c == '\U{2029}' || c == '\U{202F}' || c == '\U{205F}'
    || c == '\U{3000}' || c == '\U{FEFF}'
  }

  /** A string with no white space at either end, such as every result of `trim`. */
  predicate IsTrimmed(s: string) {
    s == [] || (!IsSpace(s[0]) && !IsSpace(s[|s| - 1]))
  }

  /** `pat` occurs in `s` starting at index `k`. */
  predicate IsInfixAt(pat: string, s: string, k: int) {
    0 <= k && k + |pat| <= |s| && s[k..k + |pat|] == pat
  }

  /** `s.includes(pat)` */
  predicate HasInfix(s: string, pat: string) {
    exists k | 0 <= k <= |s| - |pat| :: IsInfixAt(pat, s, k)
  }

  /** `s.trimStart()`: the suffix left after the leading white space. */
  function TrimStart(s: string): (r: string)
    ensures |r| <= |s| && r == s[|s| - |r|..]
    ensures r == [] || !IsSpace(r[0])
  {
    if s != [] && IsSpace(s[0]) then TrimStart(s[1..]) else s
  }

  /** `s.trimEnd()`: the prefix left before the trailing white space. */
  function TrimEnd(s: string): (r: string)
    ensures |r| <= |s| && r == s[..|r|]
    ensures r == [] || !IsSpace(r[|r| - 1])
  {
    if s != [] && IsSpace(s[|s| - 1]) then TrimEnd(s[..|s| - 1]) else s
  }

  /** `s.trim()`: `s` without the white space at either end. */
  function Trim(s: string): (r: string)
    ensures IsTrimmed(r)
  {
    TrimEnd(TrimStart(s))
  }

  /** The trim of `s` is a piece of `s`. */
  lemma TrimIsInfix(s: string)
    ensures HasInfix(s, Trim(s))
  {
    var t := TrimStart(s);
    assert IsInfixAt(Trim(s), s, |s| - |t|);
  }

  /** `trimStart` removes only white space. */
  lemma {:induction false} TrimStartRemovesSpace(s: string)
    ensures forall i :: 0 <= i < |s| - |TrimStart(s)| ==> IsSpace(s[i])
  {
    if s != [] && IsSpace(s[0]) {
      TrimStartRemovesSpace(s[1..]);
      assert forall i :: 1 <= i < |s| ==> s[i] == s[1..][i - 1];
    }
  }

  /** `trimEnd` removes only white space. */
  lemma {:induction false} TrimEndRemovesSpace(s: string)
    ensures forall i :: |TrimEnd(s)| <= i < |s| ==> IsSpace(s[i])
  {
    if s != [] && IsSpace(s[|s| - 1]) {
      TrimEndRemovesSpace(s[..|s| - 1]);
      assert forall i :: 0 <= i < |s| - 1 ==> s[i] == s[..|s| - 1][i];
    }
  }

  /** The trim of `s` is empty exactly when `s` is all white space. */
  lemma TrimEmpty(s: string)
    ensures Trim(s) == [] <==> forall i :: 0 <= i < |s| ==> IsSpace(s[i])
  {
    if Trim(s) == [] {
      TrimEmptyAllSpace(s);
    }
    if forall i :: 0 <= i < |s| ==> IsSpace(s[i]) {
      AllSpaceTrimEmpty(s);
    }
  }

  lemma TrimEmptyAllSpace(s: string)
    requires Trim(s) == []
    ensures forall i :: 0 <= i < |s| ==> IsSpace(s[i])
  {
    var t := TrimStart(s);
    TrimEndRemovesSpace(t);
    assert t == [];
    TrimStartRemovesSpace(s);
  }

  lemma AllSpaceTrimEmpty(s: string)
    requires forall i :: 0 <= i < |s| ==> IsSpace(s[i])
    ensures Trim(s) == []
  {
    var t := TrimStart(s);
    assert t == [];
  }

  /** Trimming a trimmed string changes nothing, so `trim` is idempotent. */
  lemma TrimOfTrimmed(s: string)
    requires IsTrimmed(s)
    ensures Trim(s) == s
  {
  }

  /** Every character of a piece of `s` is a character of `s`. */
  lemma InfixChars(s: string, pat: string)
    requires HasInfix(s, pat)
    ensures forall c :: c in pat ==> c in s
  {
    var k :| 0 <= k <= |s| - |pat| && IsInfixAt(pat, s, k);
    forall c | c in pat ensures c in s {
      var i :| 0 <= i < |pat| && pat[i] == c;
      assert s[k + i] == c;
    }
  }

  /** A piece of a piece of `c` is a piece of `c`. */
  lemma InfixTransitive(a: string, b: string, c: string)
    requires HasInfix(b, a) && HasInfix(c, b)
    ensures HasInfix(c, a)
  {
    var i :| 0 <= i <= |b| - |a| && IsInfixAt(a, b, i);
    var j :| 0 <= j <= |c| - |b| && IsInfixAt(b, c, j);
    assert forall m :: 0 <= m < |a| ==> a[m] == b[i + m] == c[j + i + m];
    assert IsInfixAt(a, c, j + i);
  }

  /** `x` occurs in any string built around it. */
  lemma InfixOfConcat(u: string, x: string, v: string)
    ensures HasInfix(u + x + v, x)
  {
    assert (u + x + v)[|u|..|u| + |x|] == x;
    assert IsInfixAt(x, u + x + v, |u|);
  }

  /** `s.split(sep)` for a one-character separator: the pieces between the
      separators, at least one, none containing the separator. */
  function Split(s: string, sep: char): (parts: seq<string>)
    ensures |parts| >= 1
    ensures forall p :: p in parts ==> sep !in p
  {
    if s == [] then [[]]
    else
      var rest := Split(s[1..], sep);
      if s[0] == sep then [[]] + rest else [[s[0]] + rest[0]] + rest[1..]
  }

  /** `parts.join(sep)` */
  function Join(parts: seq<string>, sep: string): string {
    if |parts| == 0 then []
    else if |parts| == 1 then parts[0]
    else parts[0] + sep + Join(parts[1..], sep)
  }

  /** Joining the pieces of a split with the separator gives back the string. */
  lemma {:induction false} JoinSplit(s: string, sep: char)
    ensures Join(Split(s, sep), [sep]) == s
  {
    if s != [] {
      JoinSplit(s[1..], sep);
      var rest := Split(s[1..], sep);
      if s[0] == sep {
        assert Split(s, sep) == [[]] + rest;
        assert ([[]] + rest)[1..] == rest;
      } else {
        var parts := [[s[0]] + rest[0]] + rest[1..];
        assert Split(s, sep) == parts;
        if |rest| > 1 {
          assert parts[1..] == rest[1..];
          assert Join(rest, [sep]) == rest[0] + [sep] + Join(rest[1..], [sep]);
        }
      }
    }
  }

  /** Splitting `p + t`, where `p` holds no separator, only extends the first piece. */
  lemma {:induction false} SplitPrefix(p: string, t: string, sep: char)
    requires sep !in p
    ensures Split(p + t, sep) == [p + Split(t, sep)[0]] + Split(t, sep)[1..]
  {
    if p != [] {
      var st := Split(t, sep);
      assert (p + t)[1..] == p[1..] + t;
      var rest := Split(p[1..] + t, sep);
      SplitPrefix(p[1..], t, sep);
      assert rest[0] == p[1..] + st[0] && rest[1..] == st[1..];
      assert (p + t)[0] == p[0] && p[0] != sep;
      assert Split(p + t, sep) == [[p[0]] + rest[0]] + rest[1..];
      assert [p[0]] + (p[1..] + st[0]) == p + st[0];
    } else {
      var st := Split(t, sep);
      assert p + t == t;
      assert p + st[0] == st[0];
      assert st == [st[0]] + st[1..];
    }
  }

  /** Splitting a join of separator-free pieces gives back the pieces. */
  lemma {:induction false} SplitJoin(parts: seq<string>, sep: char)
    requires |parts| >= 1
    requires forall p :: p in parts ==> sep !in p
    ensures Split(Join(parts, [sep]), sep) == parts
  {
    if |parts| == 1 {
      SplitPrefix(parts[0], [], sep);
      assert parts[0] + [] == parts[0];
    } else {
      var tail := Join(parts[1..], [sep]);
      SplitJoin(parts[1..], sep);
      assert Join(parts, [sep]) == parts[0] + ([sep] + tail);
      SplitPrefix(parts[0], [sep] + tail, sep);
      assert ([sep] + tail)[1..] == tail;
      assert Split([sep] + tail, sep) == [[]] + Split(tail, sep);
      assert parts[0] + [] == parts[0];
      assert parts == [parts[0]] + parts[1..];
    }
  }

  /** The last piece of a split is the text after the last separator: there
      is more than one piece exactly when the separator occurs, a lone piece is
      the whole string, and otherwise the last piece is a suffix preceded by
      the separator. */
  lemma {:induction false} SplitLast(s: string, sep: char)
    ensures var parts := Split(s, sep);
            var last := parts[|parts| - 1];
            && (|parts| > 1 <==> sep in s)
            && (|parts| == 1 ==> last == s)
            && |last| <= |s| && last == s[|s| - |last|..]
            && (|parts| > 1 ==> |last| < |s| && s[|s| - |last| - 1] == sep)
  {
    if s != [] {
      SplitLast(s[1..], sep);
      var rest := Split(s[1..], sep);
      assert sep in s <==> s[0] == sep || sep in s[1..];
      if s[0] == sep {
        assert Split(s, sep) == [[]] + rest;
      } else {
        assert Split(s, sep) == [[s[0]] + rest[0]] + rest[1..];
        if |rest| == 1 {
          assert [s[0]] + s[1..] == s;
        }
      }
    }
  }

  /** Each part of a join occurs in the joined string. */
  lemma {:induction false} JoinContains(parts: seq<string>, sep: string, i: nat)
    requires i < |parts|
    ensures HasInfix(Join(parts, sep), parts[i])
  {
    if |parts| == 1 {
      assert IsInfixAt(parts[0], Join(parts, sep), 0);
    } else if i == 0 {
      InfixOfConcat([], parts[0], sep + Join(parts[1..], sep));
      assert [] + parts[0] + (sep + Join(parts[1..], sep)) == Join(parts, sep);
    } else {
      assert parts[1..][i - 1] == parts[i];
      JoinContains(parts[1..], sep, i - 1);
      var tail := Join(parts[1..], sep);
      var k :| 0 <= k <= |tail| - |parts[i]| && IsInfixAt(parts[i], tail, k);
      InfixShift(parts[0] + sep, tail, parts[i], k);
    }
  }

  /** Every member of a list occurs in the list joined. */
  lemma JoinContainsMember(parts: seq<string>, sep: string, p: string)
    requires p in parts
    ensures HasInfix(Join(parts, sep), p)
  {
    var i :| 0 <= i < |parts| && parts[i] == p;
    JoinContains(parts, sep, i);
  }

  /** Joining one more part adds the separator and that part at the end. */
  lemma {:induction false} JoinSnoc(parts: seq<string>, sep: string, last: string)
    requires parts != []
    ensures Join(parts + [last], sep) == Join(parts, sep) + sep + last
  {
    if |parts| > 1 {
      assert (parts + [last])[1..] == parts[1..] + [last];
      JoinSnoc(parts[1..], sep, last);
    }
  }

  /** A piece of `s` at `k` is a piece of `pre + s` at `|pre| + k`. */
  lemma InfixShift(pre: string, s: string, pat: string, k: int)
    requires IsInfixAt(pat, s, k)
    ensures IsInfixAt(pat, pre + s, |pre| + k)
  {
    assert (pre + s)[|pre| + k..|pre| + k + |pat|] == s[k..k + |pat|];
  }

  /** ASCII `toLowerCase` of one character. */
  function LowerChar(c: char): char {
    if 'A' <= c <= 'Z' then (c as int + 32) as char else c
  }

  /** `s.toLowerCase()` on ASCII letters: same length, each upper-case ASCII
      letter replaced by its lower-case form, every other character kept. */
  function Lower(s: string): (r: string)
    ensures |r| == |s|
    ensures forall i :: 0 <= i < |s| ==> r[i] == LowerChar(s[i])
  {
    if s == [] then [] else [LowerChar(s[0])] + Lower(s[1..])
  }

  /** `.filter(Boolean)` on strings: the non-empty ones, in order. */
  function DropEmpty(parts: seq<string>): (r: seq<string>)
    ensures |r| <= |parts|
    ensures forall p :: p in r <==> p in parts && p != []
  {
    if parts == [] then []
    else (if parts[0] == [] then [] else [parts[0]]) + DropEmpty(parts[1..])
  }

  /** Filtering a concatenation filters each side, so the survivors keep their order. */
  lemma {:induction false} DropEmptyAppend(a: seq<string>, b: seq<string>)
    ensures DropEmpty(a + b) == DropEmpty(a) + DropEmpty(b)
  {
    if a != [] {
      DropEmptyAppend(a[1..], b);
      assert (a + b)[1..] == a[1..] + b;
    } else {
      assert a + b == b;
    }
  }

  /** `.map((s) => s.trim())` */
  function TrimAll(parts: seq<string>): (r: seq<string>)
    ensures |r| == |parts|
  {
    MapSeq(Trim, parts)
  }

  /** `xs.map(f)` */
  function MapSeq<A, B>(f: A -> B, xs: seq<A>): (r: seq<B>)
    ensures |r| == |xs|
    ensures forall i :: 0 <= i < |xs| ==> r[i] == f(xs[i])
  {
    seq(|xs|, i requires 0 <= i < |xs| => f(xs[i]))
  }

  /** The members of `xs.map(f)` are the images of the members of `xs`. */
  lemma MapSeqMembers<A, B(!new)>(f: A -> B, xs: seq<A>)
    ensures forall y :: y in MapSeq(f, xs) <==> exists x :: x in xs && f(x) == y
  {
    var ys := MapSeq(f, xs);
    forall y | y in ys ensures exists x :: x in xs && f(x) == y {
      var i :| 0 <= i < |ys| && ys[i] == y;
      assert xs[i] in xs;
    }
  }

  lemma MapSeqAppend<A, B>(f: A -> B, a: seq<A>, b: seq<A>)
    ensures MapSeq(f, a + b) == MapSeq(f, a) + MapSeq(f, b)
  {
  }

  /** The members of `TrimAll(parts)` are the trims of the members of `parts`. */
  lemma TrimAllMembers(parts: seq<string>)
    ensures forall p :: p in TrimAll(parts) <==> exists q :: q in parts && Trim(q) == p
  {
    MapSeqMembers(Trim, parts);
  }

  /** `.map((s) => s.trim()).filter(Boolean)`: trimmed, non-empty strings. */
  function CleanList(parts: seq<string>): (r: seq<string>)
    ensures forall p :: p in r ==> p != [] && IsTrimmed(p)
    ensures forall p :: p in r <==> p != [] && exists q :: q in parts && Trim(q) == p
  {
    var trimmed := TrimAll(parts);
    TrimAllMembers(parts);
    DropEmpty(trimmed)
  }

  /** Cleaning keeps the order: the clean list of a concatenation is the clean
      lists of the parts, one after the other. */
  lemma CleanListAppend(a: seq<string>, b: seq<string>)
    ensures CleanList(a + b) == CleanList(a) + CleanList(b)
  {
    MapSeqAppend(Trim, a, b);
    DropEmptyAppend(TrimAll(a), TrimAll(b));
  }

  /** A list that is already trimmed and non-empty is left as it is. */
  lemma CleanListOfClean(parts: seq<string>)
    requires forall p :: p in parts ==> p != [] && IsTrimmed(p)
    ensures CleanList(parts) == parts
  {
    TrimAllOfTrimmed(parts);
    DropEmptyOfNonEmpty(parts);
  }

  lemma TrimAllOfTrimmed(parts: seq<string>)
    requires forall p :: p in parts ==> IsTrimmed(p)
    ensures TrimAll(parts) == parts
  {
    forall i | 0 <= i < |parts| ensures TrimAll(parts)[i] == parts[i] {
      TrimOfTrimmed(parts[i]);
    }
  }

  lemma {:induction false} DropEmptyOfNonEmpty(parts: seq<string>)
    requires forall p :: p in parts ==> p != []
    ensures DropEmpty(parts) == parts
  {
    if parts != [] {
      assert parts[0] in parts;
      assert forall p :: p in parts[1..] ==> p in parts;
      DropEmptyOfNonEmpty(parts[1..]);
      assert parts == [parts[0]] + parts[1..];
    }
  }

  /** `s.split(',').map((v) => v.trim()).filter(Boolean)`: the comma-separated
      items of `s`, trimmed, non-empty, none containing a comma. */
  function CommaList(s: string): (r: seq<string>)
    ensures forall p :: p in r ==> p != [] && IsTrimmed(p) && ',' !in p
  {
    var pieces := Split(s, ',');
    var r := CleanList(pieces);
    assert forall p :: p in r ==> ',' !in p by {
      forall p | p in r ensures ',' !in p {
        var q :| q in pieces && Trim(q) == p;
        TrimIsInfix(q);
        InfixChars(q, p);
      }
    }
    r
  }

  /** Writing clean, comma-free items out comma-separated and reading them back
      gives the same items. */
  lemma CommaListRoundTrip(items: seq<string>)
    requires forall p :: p in items ==> p != [] && IsTrimmed(p) && ',' !in p
    ensures CommaList(Join(items, [','])) == items
  {
    if items == [] {
      assert Split([], ',') == [[]];
      assert TrimAll([[]]) == [Trim([])];
    } else {
      SplitJoin(items, ',');
      CleanListOfClean(items);
    }
  }
}
