/**
  Turning the raw ORDERS field of one historical order into its list of item
  tokens: split at every comma, then trim surrounding whitespace from each
  field. A missing field gives no items.
 */
module Extract {
  import opened Cells

  /** Python's `str.isspace` for a single character. */
  predicate IsSpace(c: char)
  {
    || c == ' ' || c == '\t' || c == '\n' || c == '\r'
    || c == '\U{B}' || c == '\U{C}'
    || '\U{1C}' <= c <= '\U{1F}'
    || c == '\U{85}' || c == '\U{A0}' || c == '\U{1680}'
    || '\U{2000}' <= c <= '\U{200A}'
    || c == '\U{2028}' || c == '\U{2029}' || c == '\U{202F}'
    || c == '\U{205F}' || c == '\U{3000}'
  }

  predicate AllSpace(s: string)
  {
    forall k :: 0 <= k < |s| ==> IsSpace(s[k])
  }

  /** Neither end of `s` is whitespace. */
  predicate Trimmed(s: string)
  {
    |s| == 0 || (!IsSpace(s[0]) && !IsSpace(s[|s| - 1]))
  }

  /** `r` is what is left of `s` after cutting whitespace-only runs off both ends,
      the kept part starting at index `i`. */
  predicate Cut(s: string, i: int, r: string)
  {
    && 0 <= i <= |s| - |r|
    && s[i..i + |r|] == r
    && AllSpace(s[..i])
    && AllSpace(s[i + |r|..])
  }

  function StripLeft(s: string): (r: string)
    ensures |r| <= |s| && r == s[|s| - |r|..]
    ensures AllSpace(s[..|s| - |r|])
    ensures |r| == 0 || !IsSpace(r[0])
    decreases |s|
  {
    if |s| > 0 && IsSpace(s[0]) then
      var r := StripLeft(s[1..]);
      SpacePrefix(s, |s| - |r|);
      r
    else s
  }

  function StripRight(s: string): (r: string)
    ensures |r| <= |s| && r == s[..|r|]
    ensures AllSpace(s[|r|..])
    ensures |r| == 0 || !IsSpace(r[|r| - 1])
    decreases |s|
  {
    if |s| > 0 && IsSpace(s[|s| - 1]) then
      var r := StripRight(s[..|s| - 1]);
      SpaceSuffix(s, |r|);
      r
    else s
  }

  /** A whitespace character followed by whitespace is whitespace. */
  lemma SpacePrefix(s: string, i: int)
    requires 0 < i <= |s| && IsSpace(s[0]) && AllSpace(s[1..][..i - 1])
    ensures AllSpace(s[..i])
  {
    forall k | 0 <= k < i
      ensures IsSpace(s[..i][k])
    {
      if k > 0 {
        assert s[..i][k] == s[1..][..i - 1][k - 1];
      }
    }
  }

  /** Whitespace followed by a whitespace character is whitespace. */
  lemma SpaceSuffix(s: string, i: int)
    requires 0 <= i < |s| && IsSpace(s[|s| - 1]) && AllSpace(s[..|s| - 1][i..])
    ensures AllSpace(s[i..])
  {
    forall k | 0 <= k < |s| - i
      ensures IsSpace(s[i..][k])
    {
      if k < |s| - 1 - i {
        assert s[i..][k] == s[..|s| - 1][i..][k];
      }
    }
  }

  /** Python's `str.strip()` with no argument. */
  function Strip(s: string): (r: string)
    ensures Trimmed(r)
    ensures Cut(s, |s| - |StripLeft(s)|, r)
  {
    StripCuts(s);
    StripRight(StripLeft(s))
  }

  lemma StripCuts(s: string)
    ensures Cut(s, |s| - |StripLeft(s)|, StripRight(StripLeft(s)))
  {
    CutInTwoSteps(s, StripLeft(s), StripRight(StripLeft(s)));
  }

  /** Cutting whitespace off the front and then off the back of what is left
      is one cut. */
  lemma CutInTwoSteps(s: string, left: string, r: string)
    requires |left| <= |s| && left == s[|s| - |left|..] && AllSpace(s[..|s| - |left|])
    requires |r| <= |left| && r == left[..|r|] && AllSpace(left[|r|..])
    ensures Cut(s, |s| - |left|, r)
  {
    var i := |s| - |left|;
    SlicesOfSuffix(s, i, i + |r|);
  }

  /** Slicing the suffix of `s` from `i` is slicing `s` itself. */
  lemma SlicesOfSuffix(s: string, i: int, j: int)
    requires 0 <= i <= j <= |s|
    ensures s[i..][..j - i] == s[i..j]
    ensures s[i..][j - i..] == s[j..]
  {
  }

  /** Stripping a string that is already trimmed leaves it alone. */
  lemma StripTrimmed(s: string)
    requires Trimmed(s)
    ensures Strip(s) == s
  {
  }

  /** Stripping twice is stripping once. */
  lemma StripIdempotent(s: string)
    ensures Strip(Strip(s)) == Strip(s)
  {
    StripTrimmed(Strip(s));
  }

  /** Python's `s.split(sep)` with an explicit separator: every occurrence of
      `sep` ends a field, so there is always one field more than separators. */
  function Split(s: string, sep: char): (fields: seq<string>)
    ensures |fields| >= 1
    ensures forall k :: 0 <= k < |fields| ==> sep !in fields[k]
    decreases |s|
  {
    if |s| == 0 then [""]
    else
      var rest := Split(s[1..], sep);
      if s[0] == sep then [""] + rest
      else [[s[0]] + rest[0]] + rest[1..]
  }

  /** There is one field more than there are separators. */
  lemma {:induction false} SplitLength(s: string, sep: char)
    ensures |Split(s, sep)| == multiset(s)[sep] + 1
    decreases |s|
  {
    if |s| > 0 {
      assert s == [s[0]] + s[1..];
      SplitLength(s[1..], sep);
    }
  }

  /** `sep.join(fields)`. */
  function Join(fields: seq<string>, sep: char): string
    decreases |fields|
  {
    if |fields| == 0 then ""
    else if |fields| == 1 then fields[0]
    else fields[0] + [sep] + Join(fields[1..], sep)
  }

  /** Joining the fields again with the separator restores the text. */
  lemma {:induction false} JoinSplit(s: string, sep: char)
    ensures Join(Split(s, sep), sep) == s
    decreases |s|
  {
    if |s| > 0 {
      var rest := Split(s[1..], sep);
      JoinSplit(s[1..], sep);
      if s[0] != sep && |rest| > 1 {
        assert Join(rest, sep) == rest[0] + [sep] + Join(rest[1..], sep);
      }
    }
  }

  /** A field without separator is split into itself, whatever follows it. */
  lemma {:induction false} SplitFirstField(f: string, t: string, sep: char)
    requires sep !in f
    ensures Split(f + t, sep) == [f + Split(t, sep)[0]] + Split(t, sep)[1..]
    decreases |f|
  {
    var tail := Split(t, sep);
    if |f| == 0 {
      assert f + t == t && f + tail[0] == tail[0];
      assert tail == [tail[0]] + tail[1..];
    } else {
      assert (f + t)[0] == f[0] && (f + t)[1..] == f[1..] + t;
      SplitFirstField(f[1..], t, sep);
      var rest := Split(f[1..] + t, sep);
      assert rest[0] == f[1..] + tail[0] && rest[1..] == tail[1..];
      assert [f[0]] + (f[1..] + tail[0]) == f + tail[0];
    }
  }

  /** Splitting undoes joining when no field holds the separator. */
  lemma {:induction false} SplitJoin(fields: seq<string>, sep: char)
    requires |fields| >= 1
    requires forall k :: 0 <= k < |fields| ==> sep !in fields[k]
    ensures Split(Join(fields, sep), sep) == fields
    decreases |fields|
  {
    if |fields| == 1 {
      SplitFirstField(fields[0], "", sep);
      assert fields[0] + "" == fields[0];
    } else {
      var t := Join(fields[1..], sep);
      var u := [sep] + t;
      assert Join(fields, sep) == fields[0] + u;
      SplitJoin(fields[1..], sep);
      assert Split(u, sep) == [""] + fields[1..] by {
        assert u[0] == sep && u[1..] == t;
      }
      SplitFirstField(fields[0], u, sep);
      assert fields[0] + "" == fields[0];
      assert fields == [fields[0]] + fields[1..];
    }
  }

  /** A character missing from a string is missing from every slice of it. */
  lemma SliceOmits(s: string, i: int, j: int, c: char)
    requires 0 <= i <= j <= |s| && c !in s
    ensures c !in s[i..j]
  {
  }

  /** `extract_items`: the comma-separated fields of a present ORDERS value,
      each stripped of surrounding whitespace; nothing for a missing value. */
  function ExtractItems(field: Cell<string>): (items: seq<string>)
    ensures field.Missing? ==> items == []
    ensures field.Present? ==> |items| == multiset(field.value)[','] + 1
    ensures forall k :: 0 <= k < |items| ==> ',' !in items[k] && Trimmed(items[k])
  {
    match field
    case Missing => []
    case Present(s) =>
      SplitLength(s, ',');
      var fields := Split(s, ',');
      seq(|fields|, k requires 0 <= k < |fields| =>
        var f := fields[k];
        SliceOmits(f, |f| - |StripLeft(f)|, |f| - |StripLeft(f)| + |Strip(f)|, ',');
        Strip(f))
  }

  /** Each extracted item is the corresponding comma-separated field with its
      surrounding whitespace cut away. */
  lemma ExtractItemsCutsFields(s: string, k: int)
    requires 0 <= k < |Split(s, ',')|
    ensures exists i :: Cut(Split(s, ',')[k], i, ExtractItems(Present(s))[k])
  {
    var f := Split(s, ',')[k];
    assert Cut(f, |f| - |StripLeft(f)|, ExtractItems(Present(s))[k]);
  }

  /** Items that are already trimmed and comma-free survive a round trip
      through a comma-joined ORDERS value. */
  lemma ExtractItemsOfJoin(items: seq<string>)
    requires |items| >= 1
    requires forall k :: 0 <= k < |items| ==> ',' !in items[k] && Trimmed(items[k])
    ensures ExtractItems(Present(Join(items, ','))) == items
  {
    SplitJoin(items, ',');
    forall k | 0 <= k < |items|
      ensures ExtractItems(Present(Join(items, ',')))[k] == items[k]
    {
      StripTrimmed(items[k]);
    }
  }
}
