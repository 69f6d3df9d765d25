/**
 * The java.lang.String operations that the loader and the report writers use:
 * `trim`, `split` with a one-character pattern, and joining with a separator.
 */
module JavaStrings {

  /** `String.trim` removes every character whose code is at most that of the space. */
  predicate IsTrimmable(c: char) {
    c <= ' '
  }

  /** Neither end of `s` is a character that `trim` would remove. */
  predicate IsTrimmed(s: string) {
    |s| == 0 || (!IsTrimmable(s[0]) && !IsTrimmable(s[|s| - 1]))
  }

  /** `r` sits at position `i` of `s`, and everything around it is trimmable. */
  predicate Surrounds(s: string, i: int, r: string) {
    && 0 <= i <= |s| - |r|
    && r == s[i..i + |r|]
    && (forall k :: 0 <= k < i ==> IsTrimmable(s[k]))
    && (forall k :: i + |r| <= k < |s| ==> IsTrimmable(s[k]))
  }

  /** Drops trimmable characters from the front. */
  function TrimStart(s: string): string
  {
    if |s| > 0 && IsTrimmable(s[0]) then TrimStart(s[1..]) else s
  }

  /** Drops trimmable characters from the back. */
  function TrimEnd(s: string): string
  {
    if |s| > 0 && IsTrimmable(s[|s| - 1]) then TrimEnd(s[..|s| - 1]) else s
  }

  /** `String.trim`: what is left of `s` after removing whitespace and control characters at both ends. */
  function Trim(s: string): string
  {
    TrimEnd(TrimStart(s))
  }

  /** `TrimStart` removes the longest prefix of trimmable characters and nothing else. */
  lemma {:induction false} TrimStartSpec(s: string)
    ensures var r := TrimStart(s);
      && |r| <= |s| && r == s[|s| - |r|..]
      && (forall k :: 0 <= k < |s| - |r| ==> IsTrimmable(s[k]))
      && (|r| > 0 ==> !IsTrimmable(r[0]))
    decreases |s|
  {
    if |s| > 0 && IsTrimmable(s[0]) {
      TrimStartSpec(s[1..]);
    }
  }

  /** `TrimEnd` removes the longest suffix of trimmable characters and nothing else. */
  lemma {:induction false} TrimEndSpec(s: string)
    ensures var r := TrimEnd(s);
      && |r| <= |s| && r == s[..|r|]
      && (forall k :: |r| <= k < |s| ==> IsTrimmable(s[k]))
      && (|r| > 0 ==> !IsTrimmable(r[|r| - 1]))
    decreases |s|
  {
    if |s| > 0 && IsTrimmable(s[|s| - 1]) {
      TrimEndSpec(s[..|s| - 1]);
    }
  }

  /**
   * `Trim(s)` is a stretch of `s` that neither starts nor ends with a
   * trimmable character, and everything around it in `s` is trimmable.
   */
  lemma TrimSpec(s: string)
    ensures IsTrimmed(Trim(s))
    ensures exists i :: Surrounds(s, i, Trim(s))
  {
    var t := TrimStart(s);
    TrimStartSpec(s);
    TrimEndSpec(t);
    var r := TrimEnd(t);
    var i := |s| - |t|;
    assert t == s[i..];
    assert r == s[i..i + |r|];
    assert Surrounds(s, i, r);
  }

  /** Trimming only removes characters: whatever the result holds, the original held. */
  lemma TrimWithin(s: string, c: char)
    requires c in Trim(s)
    ensures c in s
  {
    var r := Trim(s);
    TrimSpec(s);
    var i :| Surrounds(s, i, r);
    var k :| 0 <= k < |r| && r[k] == c;
    assert s[i + k] == c;
  }

  /** Trimming a trimmed string changes nothing, so a county that was trimmed once stays put. */
  lemma TrimFixesTrimmed(s: string)
    requires IsTrimmed(s)
    ensures Trim(s) == s
  {
  }

  /** Splits `s` at every occurrence of `sep`, keeping every field, empty ones included. */
  function SplitAll(s: string, sep: char): (r: seq<string>)
    ensures |r| >= 1
    ensures forall k :: 0 <= k < |r| ==> sep !in r[k]
    decreases |s|
  {
    if |s| == 0 then [""]
    else
      var rest := SplitAll(s[1..], sep);
      if s[0] == sep then [""] + rest
      else [[s[0]] + rest[0]] + rest[1..]
  }

  /** Splitting only cuts: every character of a field is a character of the string. */
  lemma {:induction false} SplitAllWithin(s: string, sep: char, k: int, c: char)
    requires 0 <= k < |SplitAll(s, sep)| && c in SplitAll(s, sep)[k]
    ensures c in s
    decreases |s|
  {
    if |s| > 0 {
      var rest := SplitAll(s[1..], sep);
      if s[0] == sep {
        SplitAllWithin(s[1..], sep, k - 1, c);
      } else if k == 0 {
        if c != s[0] {
          SplitAllWithin(s[1..], sep, 0, c);
        }
      } else {
        SplitAllWithin(s[1..], sep, k, c);
      }
      assert c in s[1..] || c == s[0];
    }
  }

  /** The fields of `split` hold only characters of the split string. */
  lemma JavaSplitWithin(s: string, sep: char, k: int, c: char)
    requires 0 <= k < |JavaSplit(s, sep)| && c in JavaSplit(s, sep)[k]
    ensures c in s
  {
    if sep in s {
      SplitAllWithin(s, sep, k, c);
    }
  }

  /** Removes the empty fields at the end of `fs`. */
  function DropTrailingEmpty(fs: seq<string>): (r: seq<string>)
    ensures r <= fs
    ensures |r| > 0 ==> r[|r| - 1] != ""
    ensures forall k :: |r| <= k < |fs| ==> fs[k] == ""
  {
    if |fs| > 0 && fs[|fs| - 1] == "" then DropTrailingEmpty(fs[..|fs| - 1]) else fs
  }

  /**
   * `String.split` with a one-character pattern and limit 0: a string without
   * the separator comes back whole (even when it is empty); otherwise the
   * string is cut at every separator and the trailing empty fields are dropped.
   */
  function JavaSplit(s: string, sep: char): (r: seq<string>)
    ensures sep !in s ==> r == [s]
    ensures sep in s ==> r <= SplitAll(s, sep) && (|r| > 0 ==> r[|r| - 1] != "")
    ensures sep in s ==> forall k :: |r| <= k < |SplitAll(s, sep)| ==> SplitAll(s, sep)[k] == ""
    ensures forall k :: 0 <= k < |r| ==> sep !in r[k]
  {
    if sep in s then DropTrailingEmpty(SplitAll(s, sep)) else [s]
  }

  /** `Collectors.joining` with a one-character separator. */
  function Join(ls: seq<string>, sep: char): string
  {
    if |ls| == 0 then ""
    else if |ls| == 1 then ls[0]
    else ls[0] + [sep] + Join(ls[1..], sep)
  }

  /** A string without the separator is one field. */
  lemma {:induction false} SplitAllNoSeparator(s: string, sep: char)
    requires sep !in s
    ensures SplitAll(s, sep) == [s]
    decreases |s|
  {
    if |s| > 0 {
      assert s[0] in s;
      SplitAllNoSeparator(s[1..], sep);
      assert [s[0]] + s[1..] == s;
    }
  }

  /** Splitting at the first separator peels off exactly the field before it. */
  lemma {:induction false} SplitAllAtFirst(a: string, sep: char, b: string)
    requires sep !in a
    ensures SplitAll(a + [sep] + b, sep) == [a] + SplitAll(b, sep)
    decreases |a|
  {
    var s := a + [sep] + b;
    if |a| == 0 {
      assert s[1..] == b;
    } else {
      assert s[1..] == a[1..] + [sep] + b;
      SplitAllAtFirst(a[1..], sep, b);
      assert [a[0]] + a[1..] == a;
    }
  }

  /** Splitting a joined list gives the list back when no element holds the separator. */
  lemma {:induction false} SplitJoin(ls: seq<string>, sep: char)
    requires |ls| > 0
    requires forall k :: 0 <= k < |ls| ==> sep !in ls[k]
    ensures SplitAll(Join(ls, sep), sep) == ls
  {
    if |ls| == 1 {
      SplitAllNoSeparator(ls[0], sep);
    } else {
      SplitJoin(ls[1..], sep);
      SplitAllAtFirst(ls[0], sep, Join(ls[1..], sep));
      assert [ls[0]] + ls[1..] == ls;
    }
  }

  /** Joining the fields of a split gives the string back. */
  lemma {:induction false} JoinSplit(s: string, sep: char)
    ensures Join(SplitAll(s, sep), sep) == s
    decreases |s|
  {
    if |s| > 0 {
      var rest := SplitAll(s[1..], sep);
      JoinSplit(s[1..], sep);
      if s[0] == sep {
        assert ([""] + rest)[1..] == rest;
        assert [s[0]] + s[1..] == s;
      } else {
        var r := [[s[0]] + rest[0]] + rest[1..];
        if |rest| == 1 {
          assert Join(r, sep) == [s[0]] + rest[0];
        } else {
          assert r[1..] == rest[1..];
          assert Join(r, sep) == [s[0]] + rest[0] + [sep] + Join(rest[1..], sep);
        }
        assert [s[0]] + s[1..] == s;
      }
    }
  }

  /** With limit 0 the empty last field of "1,2," is dropped: the line has two fields, not three. */
  lemma TrailingEmptyFieldDropped()
    ensures JavaSplit("1,2,", ',') == ["1", "2"]
  {
    var fields := ["1", "2", ""];
    assert Join(fields, ',') == "1,2,";
    SplitJoin(fields, ',');
    assert "1,2,"[1] == ',';
    assert DropTrailingEmpty(fields) == ["1", "2"];
  }
}
