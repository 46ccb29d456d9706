/** The three Go `strings` operations the resolver relies on, over `seq<char>`:
    `Split` with a one-character separator, `FieldsFunc` with the comma as
    the only separator (`Fields`), and `Join`. The separators used here are
    ASCII, so working on characters rather than runes changes nothing. */
module Text {

  /** `strings.Join(parts, sep)`: the parts with `sep` between neighbours;
      the empty list joins to the empty string. */
  function Join(parts: seq<string>, sep: string): string
  {
    if |parts| == 0 then ""
    else if |parts| == 1 then parts[0]
    else parts[0] + sep + Join(parts[1..], sep)
  }

  /** The summed length of all parts. */
  function TotalLength(parts: seq<string>): nat
  {
    if |parts| == 0 then 0 else |parts[0]| + TotalLength(parts[1..])
  }

  /** `strings.Split(s, string(sep))`: the maximal separator-free pieces of
      `s`, empty ones included, so `s` with n separators has n + 1 parts and
      the empty string has the single part "". */
  function Split(s: string, sep: char): (parts: seq<string>)
    ensures |parts| >= 1
    ensures forall k :: 0 <= k < |parts| ==> sep !in parts[k]
    ensures Join(parts, [sep]) == s
    decreases |s|
  {
    if |s| == 0 then [""]
    else
      var rest := Split(s[1..], sep);
      if s[0] == sep then
        assert Join([""] + rest, [sep]) == "" + [sep] + Join(rest, [sep]);
        [""] + rest
      else
        var parts := [[s[0]] + rest[0]] + rest[1..];
        assert |rest| > 1 ==> Join(rest, [sep]) == rest[0] + [sep] + Join(rest[1..], [sep]);
        assert parts[1..] == rest[1..];
        assert s == [s[0]] + s[1..];
        parts
  }

  /** The non-empty strings of `xs`, in order. */
  function NonEmpty(xs: seq<string>): (ys: seq<string>)
    ensures forall k :: 0 <= k < |ys| ==> ys[k] != "" && ys[k] in xs
    ensures forall k :: 0 <= k < |xs| && xs[k] != "" ==> xs[k] in ys
  {
    if |xs| == 0 then []
    else if xs[0] == "" then NonEmpty(xs[1..])
    else [xs[0]] + NonEmpty(xs[1..])
  }

  /** `strings.FieldsFunc(s, func(c rune) bool { return c == ',' })`: the
      comma-separated names of `s` with the empty ones dropped, so "a,,b"
      gives ["a", "b"] and "," gives []. */
  function Fields(s: string): (fields: seq<string>)
    ensures forall k :: 0 <= k < |fields| ==> fields[k] != "" && ',' !in fields[k]
  {
    NonEmpty(Split(s, ','))
  }

  /** `sub` occurs as a contiguous piece of `s`. */
  predicate IsInfix(sub: string, s: string)
  {
    exists i, j :: 0 <= i <= j <= |s| && s[i..j] == sub
  }

  lemma {:induction false} SplitWithoutSeparator(x: string, sep: char)
    requires sep !in x
    ensures Split(x, sep) == [x]
    decreases |x|
  {
    if |x| > 0 {
      SplitWithoutSeparator(x[1..], sep);
      assert [x[0]] + x[1..] == x;
    }
  }

  lemma {:induction false} SplitAfterField(x: string, sep: char, y: string)
    requires sep !in x
    ensures Split(x + [sep] + y, sep) == [x] + Split(y, sep)
    decreases |x|
  {
    var s := x + [sep] + y;
    if |x| == 0 {
      assert s[1..] == y;
    } else {
      assert s[1..] == x[1..] + [sep] + y;
      SplitAfterField(x[1..], sep, y);
      assert [x[0]] + x[1..] == x;
    }
  }

  /** Splitting undoes joining whenever no part contains the separator. */
  lemma {:induction false} SplitOfJoin(parts: seq<string>, sep: char)
    requires |parts| >= 1
    requires forall k :: 0 <= k < |parts| ==> sep !in parts[k]
    ensures Split(Join(parts, [sep]), sep) == parts
    decreases |parts|
  {
    if |parts| == 1 {
      SplitWithoutSeparator(parts[0], sep);
    } else {
      SplitOfJoin(parts[1..], sep);
      SplitAfterField(parts[0], sep, Join(parts[1..], [sep]));
      assert [parts[0]] + parts[1..] == parts;
    }
  }

  lemma {:induction false} NonEmptyKeepsNonEmpty(xs: seq<string>)
    requires forall k :: 0 <= k < |xs| ==> xs[k] != ""
    ensures NonEmpty(xs) == xs
    decreases |xs|
  {
    if |xs| > 0 {
      NonEmptyKeepsNonEmpty(xs[1..]);
      assert [xs[0]] + xs[1..] == xs;
    }
  }

  /** A single string is kept exactly when it is non-empty. */
  lemma NonEmptyOfOne(x: string)
    ensures NonEmpty([x]) == if x == "" then [] else [x]
  {
    assert [x][1..] == [];
  }

  /** Dropping empty strings commutes with concatenation, so together with
      `NonEmptyOfOne` it fixes `NonEmpty` on every list: what is kept keeps
      its order and its multiplicity. */
  lemma {:induction false} NonEmptyConcat(xs: seq<string>, ys: seq<string>)
    ensures NonEmpty(xs + ys) == NonEmpty(xs) + NonEmpty(ys)
    decreases |xs|
  {
    if |xs| > 0 {
      NonEmptyConcat(xs[1..], ys);
      assert (xs + ys)[0] == xs[0];
      assert (xs + ys)[1..] == xs[1..] + ys;
      if xs[0] != "" {
        assert [xs[0]] + NonEmpty(xs[1..]) + NonEmpty(ys) == [xs[0]] + (NonEmpty(xs[1..]) + NonEmpty(ys));
      }
    } else {
      assert xs + ys == ys;
      assert NonEmpty(xs) + NonEmpty(ys) == NonEmpty(ys);
    }
  }

  /** Reading a name and the rest of the flag: the name is a field when it
      is non-empty, followed by the fields of the rest. */
  lemma FieldsAfterName(x: string, y: string)
    requires ',' !in x
    ensures Fields(x + "," + y) == (if x == "" then [] else [x]) + Fields(y)
  {
    SplitAfterField(x, ',', y);
    NonEmptyConcat([x], Split(y, ','));
    NonEmptyOfOne(x);
  }

  /** An empty name between two commas yields no field. */
  lemma FieldsSkipEmptyName()
    ensures Fields("a,,b") == ["a", "b"]
  {
    FieldsOfSingleName("b");
    FieldsAfterName("", "b");
    assert "" + "," + "b" == ",b";
    FieldsAfterName("a", ",b");
    assert "a" + "," + ",b" == "a,,b";
  }

  /** A lone comma yields no field at all. */
  lemma FieldsOfLoneComma()
    ensures Fields(",") == []
  {
    assert Split("", ',') == [""];
    FieldsAfterName("", "");
    assert "" + "," + "" == ",";
  }

  /** Comma-joining names that are non-empty and comma-free and reading them
      back with `Fields` gives the same names in the same order. */
  lemma FieldsOfJoin(names: seq<string>)
    requires forall k :: 0 <= k < |names| ==> names[k] != "" && ',' !in names[k]
    ensures Fields(Join(names, ",")) == names
  {
    if |names| == 0 {
      assert Split("", ',') == [""];
    } else {
      SplitOfJoin(names, ',');
      NonEmptyKeepsNonEmpty(names);
    }
  }

  /** A single non-empty, comma-free name is read back as exactly itself. */
  lemma FieldsOfSingleName(name: string)
    requires name != "" && ',' !in name
    ensures Fields(name) == [name]
  {
    SplitWithoutSeparator(name, ',');
    NonEmptyKeepsNonEmpty([name]);
  }

  /** Reading back the comma-join of what `Fields` found finds the same
      names again. */
  lemma FieldsIdempotent(s: string)
    ensures Fields(Join(Fields(s), ",")) == Fields(s)
  {
    FieldsOfJoin(Fields(s));
  }

  /** A join is as long as its parts plus one separator between each pair
      of neighbours, and begins with the first part. */
  lemma {:induction false} JoinLength(parts: seq<string>, sep: string)
    requires |parts| > 0
    ensures |Join(parts, sep)| == TotalLength(parts) + (|parts| - 1) * |sep|
    ensures Join(parts, sep)[..|parts[0]|] == parts[0]
    decreases |parts|
  {
    if |parts| > 1 {
      JoinLength(parts[1..], sep);
      assert (|parts| - 1) * |sep| == |sep| + (|parts| - 2) * |sep|;
    }
  }

  /** Every part appears verbatim in the joined string. */
  lemma {:induction false} JoinContainsPart(parts: seq<string>, sep: string, k: nat)
    requires k < |parts|
    ensures IsInfix(parts[k], Join(parts, sep))
    decreases |parts|
  {
    var s := Join(parts, sep);
    if |parts| == 1 {
      assert s[0..|parts[0]|] == parts[0];
    } else if k == 0 {
      assert s[0..|parts[0]|] == parts[0];
    } else {
      JoinContainsPart(parts[1..], sep, k - 1);
      var tail := Join(parts[1..], sep);
      var i, j :| 0 <= i <= j <= |tail| && tail[i..j] == parts[k];
      var off := |parts[0]| + |sep|;
      assert s == parts[0] + sep + tail;
      assert s[off + i..off + j] == tail[i..j];
    }
  }

  /** A string with n separators splits into n + 1 parts, so the resolver's
      "three parts" test means "exactly two colons". */
  lemma {:induction false} SplitCountsSeparators(s: string, sep: char)
    ensures |Split(s, sep)| == multiset(s)[sep] + 1
    decreases |s|
  {
    if |s| > 0 {
      SplitCountsSeparators(s[1..], sep);
      SplitLengthStep(s, sep);
      CountStep(s, sep);
    }
  }

  /** The first character adds one occurrence exactly when it is `c`. */
  lemma CountStep(s: string, c: char)
    requires |s| > 0
    ensures multiset(s)[c] == multiset(s[1..])[c] + (if s[0] == c then 1 else 0)
  {
    assert s == [s[0]] + s[1..];
    assert multiset(s) == multiset([s[0]]) + multiset(s[1..]);
  }

  /** The first character adds a part exactly when it is the separator. */
  lemma SplitLengthStep(s: string, sep: char)
    requires |s| > 0
    ensures |Split(s, sep)| == |Split(s[1..], sep)| + (if s[0] == sep then 1 else 0)
  {
  }

  lemma InfixOfSelf(s: string)
    ensures IsInfix(s, s)
  {
    assert s[0..|s|] == s;
  }

  /** An infix stays an infix when text is added on either side. */
  lemma InfixInContext(sub: string, s: string, before: string, after: string)
    requires IsInfix(sub, s)
    ensures IsInfix(sub, before + s + after)
  {
    var i, j :| 0 <= i <= j <= |s| && s[i..j] == sub;
    var t := before + s + after;
    assert t[|before| + i..|before| + j] == s[i..j];
  }
}
