/**
 * The string operations the dictionary applies to words and dialog answers:
 * Python's `str.strip()`, `str.lower()`, `str.capitalize()`, `str.split(",")`
 * and `", ".join(...)`, restricted to ASCII letters and ASCII whitespace.
 */
module Text {

  /** Python's `str.isspace` on ASCII: tab, line feed, vertical tab, form feed,
      carriage return, the four information separators and space. */
  predicate IsSpace(c: char) {
    (9 <= c as int <= 13) || (28 <= c as int <= 32)
  }

  /** Every character of `s` is whitespace. */
  predicate Blank(s: string) {
    forall i :: 0 <= i < |s| ==> IsSpace(s[i])
  }

  /** No whitespace at either end of `s`. */
  predicate Stripped(s: string) {
    s == [] || (!IsSpace(s[0]) && !IsSpace(s[|s| - 1]))
  }

  /** `str.strip()`: drops leading and trailing whitespace. */
  function Strip(s: string): (r: string)
    ensures |r| <= |s|
    ensures Stripped(r)
    decreases |s|
  {
    if |s| > 0 && IsSpace(s[0]) then Strip(s[1..])
    else if |s| > 0 && IsSpace(s[|s| - 1]) then Strip(s[..|s| - 1])
    else s
  }

  lemma StripKeepsStripped(s: string)
    requires Stripped(s)
    ensures Strip(s) == s
  {
  }

  /** Whitespace in front of a string does not change what `strip` returns. */
  lemma {:induction false} StripLeadingBlank(p: string, s: string)
    requires Blank(p)
    ensures Strip(p + s) == Strip(s)
    decreases |p|
  {
    if |p| == 0 {
      assert p + s == s;
    } else {
      assert (p + s)[0] == p[0];
      assert (p + s)[1..] == p[1..] + s;
      StripLeadingBlank(p[1..], s);
    }
  }

  /** Whitespace after a string does not change what `strip` returns. */
  lemma {:induction false} StripTrailingBlank(s: string, q: string)
    requires Blank(q)
    ensures Strip(s + q) == Strip(s)
    decreases |s| + |q|
  {
    if |q| == 0 {
      assert s + q == s;
    } else if |s| == 0 {
      assert s + q == q + [];
      StripLeadingBlank(q, []);
    } else if IsSpace(s[0]) {
      assert (s + q)[0] == s[0];
      assert (s + q)[1..] == s[1..] + q;
      StripTrailingBlank(s[1..], q);
    } else {
      assert (s + q)[0] == s[0];
      assert (s + q)[|s + q| - 1] == q[|q| - 1];
      assert (s + q)[..|s + q| - 1] == s + q[..|q| - 1];
      StripTrailingBlank(s, q[..|q| - 1]);
    }
  }

  /** Strip is determined by the non-blank core: padding on either side is removed
      and a string without padding is kept as it is. */
  lemma StripPadding(p: string, s: string, q: string)
    requires Blank(p) && Blank(q)
    ensures Strip(p + s + q) == Strip(s)
  {
    assert p + s + q == p + (s + q);
    StripLeadingBlank(p, s + q);
    StripTrailingBlank(s, q);
  }

  /** `s` is `core` with whitespace, possibly none, on either side. */
  ghost predicate PaddedBy(s: string, core: string) {
    exists p, q :: Blank(p) && Blank(q) && s == p + core + q
  }

  /** Strip removes only surrounding whitespace: every string is its stripped form
      with whitespace on either side. */
  lemma {:induction false} StripDecomposes(s: string)
    ensures PaddedBy(s, Strip(s))
    decreases |s|
  {
    if |s| > 0 && IsSpace(s[0]) {
      StripDecomposes(s[1..]);
      PadFront(s[0], s[1..], Strip(s));
      assert s == [s[0]] + s[1..];
    } else if |s| > 0 && IsSpace(s[|s| - 1]) {
      var front := s[..|s| - 1];
      StripDecomposes(front);
      PadBack(front, s[|s| - 1], Strip(s));
      assert s == front + [s[|s| - 1]];
    } else {
      var none: string := [];
      assert Strip(s) == s;
      assert Blank(none) && s == none + Strip(s) + none;
    }
  }

  lemma PadFront(c: char, t: string, core: string)
    requires IsSpace(c) && PaddedBy(t, core)
    ensures PaddedBy([c] + t, core)
  {
    var p, q :| Blank(p) && Blank(q) && t == p + core + q;
    var p' := [c] + p;
    assert Blank(p');
    assert [c] + t == p' + core + q;
  }

  lemma PadBack(t: string, c: char, core: string)
    requires IsSpace(c) && PaddedBy(t, core)
    ensures PaddedBy(t + [c], core)
  {
    var p, q :| Blank(p) && Blank(q) && t == p + core + q;
    var q' := q + [c];
    assert Blank(q');
    assert t + [c] == p + core + q';
  }

  /** A string of whitespace strips to the empty string. */
  lemma BlankStripsToEmpty(s: string)
    requires Blank(s)
    ensures Strip(s) == []
  {
    assert s + [] == s;
    StripLeadingBlank(s, []);
  }

  function LowerChar(c: char): char {
    if 'A' <= c <= 'Z' then (c as int - 'A' as int + 'a' as int) as char else c
  }

  function UpperChar(c: char): char {
    if 'a' <= c <= 'z' then (c as int - 'a' as int + 'A' as int) as char else c
  }

  /** `str.lower()` on ASCII letters. */
  function Lower(s: string): (r: string)
    ensures |r| == |s|
    ensures forall i :: 0 <= i < |s| ==> r[i] == LowerChar(s[i])
  {
    seq(|s|, i requires 0 <= i < |s| => LowerChar(s[i]))
  }

  /** No upper-case ASCII letter in `s`. */
  predicate IsLower(s: string) {
    forall i :: 0 <= i < |s| ==> !('A' <= s[i] <= 'Z')
  }

  lemma LowerIsLower(s: string)
    ensures IsLower(Lower(s))
    ensures Lower(Lower(s)) == Lower(s)
  {
  }

  lemma LowerSlices(s: string)
    requires |s| > 0
    ensures Lower(s)[1..] == Lower(s[1..])
    ensures Lower(s)[..|s| - 1] == Lower(s[..|s| - 1])
  {
  }

  /** Lower-casing does not move whitespace, so it commutes with strip. */
  lemma {:induction false} StripLowerCommute(s: string)
    ensures Strip(Lower(s)) == Lower(Strip(s))
    decreases |s|
  {
    if |s| > 0 && IsSpace(s[0]) {
      LowerSlices(s);
      StripLowerCommute(s[1..]);
    } else if |s| > 0 && IsSpace(s[|s| - 1]) {
      LowerSlices(s);
      StripLowerCommute(s[..|s| - 1]);
    } else {
      assert Stripped(Lower(s));
    }
  }

  /** `str.capitalize()` on ASCII: the first letter upper-case, the rest lower-case. */
  function Capitalize(s: string): (r: string)
    ensures |r| == |s|
    ensures Lower(r) == Lower(s)
    ensures |r| > 0 ==> !('a' <= r[0] <= 'z')
    ensures forall i :: 1 <= i < |r| ==> !('A' <= r[i] <= 'Z')
  {
    if |s| == 0 then s else [UpperChar(s[0])] + Lower(s[1..])
  }

  /** The key a query is stored under: `word.strip().lower()`. */
  function Normalize(s: string): (r: string)
    ensures Stripped(r) && IsLower(r)
  {
    LowerIsLower(Strip(s));
    var r := Lower(Strip(s));
    assert Stripped(r) by {
      if |r| > 0 {
        assert r[0] == LowerChar(Strip(s)[0]);
      }
    }
    r
  }

  /** Normalizing a key again gives the same key. */
  lemma NormalizeIdempotent(s: string)
    ensures Normalize(Normalize(s)) == Normalize(s)
  {
    var t := Normalize(s);
    StripKeepsStripped(t);
    LowerIsLower(Strip(s));
  }

  /** Two queries that differ only in the case of their letters or in surrounding
      whitespace have the same key. */
  lemma {:induction false} NormalizeIgnoresCaseAndPadding(p: string, s: string, q: string)
    requires Blank(p) && Blank(q)
    ensures Normalize(p + s + q) == Normalize(s)
    ensures Normalize(Lower(s)) == Normalize(s)
  {
    StripPadding(p, s, q);
    StripLowerCommute(s);
    LowerIsLower(Strip(s));
  }

  /** The key is the query's non-blank core, lower-cased: with `StripDecomposes` this
      fixes the key of every query. */
  lemma NormalizeCore(p: string, t: string, q: string)
    requires Blank(p) && Blank(q) && Stripped(t)
    ensures Normalize(p + t + q) == Lower(t)
  {
    StripPadding(p, t, q);
    StripKeepsStripped(t);
  }

  /** `str.split(sep)` for a one-character separator: the pieces between separators. */
  function Split(s: string, sep: char): (parts: seq<string>)
    ensures |parts| > 0
    decreases |s|
  {
    if |s| == 0 then [[]]
    else
      var rest := Split(s[1..], sep);
      if s[0] == sep then [[]] + rest
      else [[s[0]] + rest[0]] + rest[1..]
  }

  /** There is one more piece than there are separators, empty pieces included, and no
      piece holds the separator. */
  lemma {:induction false} SplitCounts(s: string, sep: char)
    ensures |Split(s, sep)| == multiset(s)[sep] + 1
    ensures forall i :: 0 <= i < |Split(s, sep)| ==> sep !in Split(s, sep)[i]
    decreases |s|
  {
    if |s| > 0 {
      SplitCounts(s[1..], sep);
      assert s == [s[0]] + s[1..];
      assert multiset(s) == multiset{s[0]} + multiset(s[1..]);
      if s[0] == sep {
        SplitAtSeparator(s, sep);
      } else {
        SplitAtOther(s, sep);
      }
    }
  }

  /** Splitting never creates characters. */
  lemma {:induction false} SplitKeepsCharacters(s: string, sep: char, i: nat, c: char)
    requires i < |Split(s, sep)| && c in Split(s, sep)[i]
    ensures c in s
    decreases |s|
  {
    if |s| > 0 {
      if s[0] == sep {
        SplitAtSeparator(s, sep);
        if i > 0 {
          SplitKeepsCharacters(s[1..], sep, i - 1, c);
        }
      } else {
        SplitAtOther(s, sep);
        if i > 0 {
          SplitKeepsCharacters(s[1..], sep, i, c);
        } else if c != s[0] {
          SplitKeepsCharacters(s[1..], sep, 0, c);
        }
      }
    }
  }

  /** `sep.join(parts)`. */
  function Join(parts: seq<string>, sep: string): (r: string)
    ensures |parts| == 0 ==> r == []
    ensures |parts| > 0 ==> |parts[0]| <= |r| && r[..|parts[0]|] == parts[0]
    decreases |parts|
  {
    if |parts| == 0 then []
    else if |parts| == 1 then parts[0]
    else parts[0] + sep + Join(parts[1..], sep)
  }

  /** Joining the pieces of a split with the same separator gives the string back. */
  lemma {:induction false} JoinSplit(s: string, sep: char)
    ensures Join(Split(s, sep), [sep]) == s
    decreases |s|
  {
    if |s| > 0 {
      var rest := Split(s[1..], sep);
      JoinSplit(s[1..], sep);
      if s[0] == sep {
        SplitAtSeparator(s, sep);
        JoinCons([], rest, [sep]);
        assert [] + [sep] + s[1..] == s;
      } else {
        SplitAtOther(s, sep);
        var head := [s[0]] + rest[0];
        if |rest| == 1 {
          assert head == s;
        } else {
          JoinCons(rest[0], rest[1..], [sep]);
          assert rest == [rest[0]] + rest[1..];
          JoinCons(head, rest[1..], [sep]);
        }
      }
    }
  }

  lemma SplitAtSeparator(s: string, sep: char)
    requires |s| > 0 && s[0] == sep
    ensures Split(s, sep) == [[]] + Split(s[1..], sep)
  {
  }

  lemma SplitAtOther(s: string, sep: char)
    requires |s| > 0 && s[0] != sep
    ensures Split(s, sep) == [[s[0]] + Split(s[1..], sep)[0]] + Split(s[1..], sep)[1..]
  {
  }

  lemma JoinCons(x: string, xs: seq<string>, sep: string)
    requires |xs| > 0
    ensures Join([x] + xs, sep) == x + sep + Join(xs, sep)
  {
    assert ([x] + xs)[1..] == xs;
  }

  lemma {:induction false} SplitWithoutSeparator(a: string, sep: char)
    requires sep !in a
    ensures Split(a, sep) == [a]
    decreases |a|
  {
    if |a| > 0 {
      assert a == [a[0]] + a[1..];
      SplitWithoutSeparator(a[1..], sep);
    }
  }

  /** A separator after a separator-free prefix ends the first piece. */
  lemma {:induction false} SplitAtFirstSeparator(a: string, sep: char, b: string)
    requires sep !in a
    ensures Split(a + [sep] + b, sep) == [a] + Split(b, sep)
    decreases |a|
  {
    var s := a + [sep] + b;
    if |a| == 0 {
      assert s[1..] == b;
    } else {
      assert s[0] == a[0];
      assert s[1..] == a[1..] + [sep] + b;
      assert a == [a[0]] + a[1..];
      SplitAtFirstSeparator(a[1..], sep, b);
    }
  }

  /** Splitting a join of separator-free pieces gives the pieces back. */
  lemma {:induction false} SplitJoin(parts: seq<string>, sep: char)
    requires |parts| > 0
    requires forall i :: 0 <= i < |parts| ==> sep !in parts[i]
    ensures Split(Join(parts, [sep]), sep) == parts
    decreases |parts|
  {
    if |parts| == 1 {
      SplitWithoutSeparator(parts[0], sep);
    } else {
      var rest := Join(parts[1..], [sep]);
      assert parts == [parts[0]] + parts[1..];
      JoinCons(parts[0], parts[1..], [sep]);
      SplitAtFirstSeparator(parts[0], sep, rest);
      SplitJoin(parts[1..], sep);
    }
  }

  function StripAll(parts: seq<string>): (r: seq<string>)
    ensures |r| == |parts|
    ensures forall i :: 0 <= i < |r| ==> r[i] == Strip(parts[i])
  {
    seq(|parts|, i requires 0 <= i < |parts| => Strip(parts[i]))
  }

  /** A list element that is itself a valid answer piece: no comma, no padding. */
  predicate CleanItem(x: string) {
    ',' !in x && Stripped(x)
  }

  /** A comma-separated dialog answer read as a list:
      `[piece.strip() for piece in answer.split(",")]`. */
  function Fields(s: string): (r: seq<string>)
    ensures |r| == |Split(s, ',')|
    ensures forall i :: 0 <= i < |r| ==> PaddedBy(Split(s, ',')[i], r[i])
  {
    StripAllPadded(Split(s, ','));
    StripAll(Split(s, ','))
  }

  lemma StripAllPadded(parts: seq<string>)
    ensures forall i :: 0 <= i < |parts| ==> PaddedBy(parts[i], StripAll(parts)[i])
  {
    forall i | 0 <= i < |parts|
      ensures PaddedBy(parts[i], StripAll(parts)[i])
    {
      StripDecomposes(parts[i]);
    }
  }

  /** A list answer has one item per comma plus one, each without comma or padding. */
  lemma FieldsClean(s: string)
    ensures |Fields(s)| == multiset(s)[','] + 1
    ensures forall i :: 0 <= i < |Fields(s)| ==> CleanItem(Fields(s)[i])
  {
    var parts := Split(s, ',');
    SplitCounts(s, ',');
    forall i | 0 <= i < |parts|
      ensures CleanItem(Fields(s)[i])
    {
      StripIsInfix(parts[i]);
    }
  }

  /** Every character strip keeps was in the input. */
  lemma {:induction false} StripIsInfix(s: string)
    ensures forall c :: c in Strip(s) ==> c in s
    decreases |s|
  {
    if |s| > 0 && IsSpace(s[0]) {
      StripIsInfix(s[1..]);
    } else if |s| > 0 && IsSpace(s[|s| - 1]) {
      StripIsInfix(s[..|s| - 1]);
    }
  }

  /** A list displayed as `", ".join(items)` and typed back into a comma-separated
      answer reads as the same list, when its items are clean. */
  lemma ReadBackJoined(items: seq<string>)
    requires |items| > 0
    requires forall i :: 0 <= i < |items| ==> CleanItem(items[i])
    ensures Fields(Join(items, ", ")) == items
  {
    ReadBackPadded([], items);
    assert [] + Join(items, ", ") == Join(items, ", ");
  }

  /** The same, with whitespace before the first item: the shape of every piece after a
      `", "` separator. */
  lemma {:induction false} ReadBackPadded(p: string, items: seq<string>)
    requires Blank(p)
    requires |items| > 0
    requires forall i :: 0 <= i < |items| ==> CleanItem(items[i])
    ensures Fields(p + Join(items, ", ")) == items
    decreases |items|
  {
    var head := p + items[0];
    PaddedItem(p, items[0]);
    if |items| == 1 {
      assert p + Join(items, ", ") == head;
      SplitWithoutSeparator(head, ',');
      assert StripAll([head]) == [Strip(head)];
    } else {
      var tail := Join(items[1..], ", ");
      JoinPadded(p, items);
      SplitAtFirstSeparator(head, ',', [' '] + tail);
      ReadBackPadded([' '], items[1..]);
      StripAllCons(head, Split([' '] + tail, ','));
      assert items == [items[0]] + items[1..];
    }
  }

  /** A clean item behind padding holds no comma and strips to the item. */
  lemma PaddedItem(p: string, x: string)
    requires Blank(p) && CleanItem(x)
    ensures ',' !in p + x && Strip(p + x) == x
  {
    BlankHasNoComma(p);
    StripPadding(p, x, []);
    assert p + x + [] == p + x;
    StripKeepsStripped(x);
  }

  lemma JoinPadded(p: string, items: seq<string>)
    requires |items| > 1
    ensures p + Join(items, ", ") == (p + items[0]) + [','] + ([' '] + Join(items[1..], ", "))
  {
    assert items == [items[0]] + items[1..];
    JoinCons(items[0], items[1..], ", ");
  }

  lemma BlankHasNoComma(p: string)
    requires Blank(p)
    ensures ',' !in p
  {
  }

  lemma StripAllCons(x: string, xs: seq<string>)
    ensures StripAll([x] + xs) == [Strip(x)] + StripAll(xs)
  {
  }
}
