/** Strings as sequences of characters: an Option type for partial results, and
    splitting a string on a separator (the way a reader of the program's output
    files takes a line apart), with the join that undoes it. */
module Text {

  datatype Option<+T> = None | Some(value: T)

  /** Splits `s` at every leftmost, non-overlapping occurrence of `sep`.
      The result always has one more field than there are separators, so a
      string that ends in `sep` yields an empty last field. */
  function Split(s: string, sep: string): (fields: seq<string>)
    requires sep != []
    ensures |fields| >= 1
    decreases |s|
  {
    if |s| < |sep| then [s]
    else if s[..|sep|] == sep then [""] + Split(s[|sep|..], sep)
    else
      var rest := Split(s[1..], sep);
      [[s[0]] + rest[0]] + rest[1..]
  }

  /** Glues fields back together with `sep` between neighbours. */
  function Join(fields: seq<string>, sep: string): string
    requires |fields| >= 1
    decreases |fields|
  {
    if |fields| == 1 then fields[0] else fields[0] + sep + Join(fields[1..], sep)
  }

  lemma JoinCons(x: string, rest: seq<string>, sep: string)
    requires |rest| >= 1
    ensures Join([x] + rest, sep) == x + sep + Join(rest, sep)
  {
    assert ([x] + rest)[1..] == rest;
  }

  /** Joining the fields of a split gives back the string that was split. */
  lemma {:induction false} JoinSplit(s: string, sep: string)
    requires sep != []
    ensures Join(Split(s, sep), sep) == s
    decreases |s|
  {
    if |s| < |sep| {
    } else if s[..|sep|] == sep {
      var rest := Split(s[|sep|..], sep);
      JoinSplit(s[|sep|..], sep);
      JoinCons("", rest, sep);
      assert s == s[..|sep|] + s[|sep|..];
    } else {
      var rest := Split(s[1..], sep);
      JoinSplit(s[1..], sep);
      JoinHead(s[0], rest, sep);
      assert s == [s[0]] + s[1..];
    }
  }

  /** Prepending a character to the first field prepends it to the join. */
  lemma JoinHead(c: char, fields: seq<string>, sep: string)
    requires |fields| >= 1
    ensures Join([[c] + fields[0]] + fields[1..], sep) == [c] + Join(fields, sep)
  {
    if |fields| > 1 {
      JoinCons([c] + fields[0], fields[1..], sep);
    }
  }

  /** A field free of the separator's first character, followed by the
      separator, is split off as one whole field. */
  lemma {:induction false} SplitLeadingField(x: string, sep: string, t: string)
    requires sep != [] && sep[0] !in x
    ensures Split(x + sep + t, sep) == [x] + Split(t, sep)
    decreases |x|
  {
    var s := x + sep + t;
    if x == [] {
      assert s == sep + t;
      assert s[..|sep|] == sep;
      assert s[|sep|..] == t;
    } else {
      assert s[0] == x[0] && s[0] != sep[0];
      assert s[..|sep|] != sep;
      assert s[1..] == x[1..] + sep + t;
      SplitLeadingField(x[1..], sep, t);
      assert [x[0]] + x[1..] == x;
    }
  }

  /** A string free of the separator's first character is one field. */
  lemma {:induction false} SplitNoSeparator(x: string, sep: string)
    requires sep != [] && sep[0] !in x
    ensures Split(x, sep) == [x]
    decreases |x|
  {
    if |x| < |sep| {
    } else {
      assert x[..|sep|] != sep by { assert x[0] != sep[0]; }
      SplitNoSeparator(x[1..], sep);
      assert [x[0]] + x[1..] == x;
    }
  }
}
