/** The few PHP string primitives the cache relies on: truthiness of a string,
    explode/implode on a one-character delimiter, and trim/ltrim/rtrim with a
    character list. Strings are sequences of characters. */
module Strings {

  /** PHP converts a string to false exactly when it is "" or "0". */
  predicate Truthy(s: string)
    ensures Truthy(s) <==> |s| >= 1 && (|s| >= 2 || s[0] != '0')
  {
    s != "" && s != "0"
  }

  /** implode(d, parts): the parts with one delimiter between neighbours. */
  function Implode(parts: seq<string>, d: char): (r: string)
    ensures |r| + 1 >= |parts|
  {
    if |parts| == 0 then ""
    else if |parts| == 1 then parts[0]
    else parts[0] + [d] + Implode(parts[1..], d)
  }

  /** The ends of an implode of non-empty parts are the outer ends of its
      first and last parts, and the delimiter occurs once there are two parts. */
  lemma {:induction false} ImplodeEnds(parts: seq<string>, d: char)
    requires |parts| >= 1
    requires forall i :: 0 <= i < |parts| ==> parts[i] != ""
    ensures var r := Implode(parts, d);
      r != "" && r[0] == parts[0][0] && r[|r| - 1] == parts[|parts| - 1][|parts[|parts| - 1]| - 1]
    ensures |parts| >= 2 ==> d in Implode(parts, d)
  {
    if |parts| >= 2 {
      ImplodeEnds(parts[1..], d);
      var rest := Implode(parts[1..], d);
      var r := parts[0] + [d] + rest;
      assert r[|parts[0]|] == d;
    }
  }

  /** An implode begins with its first part. */
  lemma ImplodeFirst(parts: seq<string>, d: char)
    requires |parts| >= 1 && parts[0] != ""
    ensures Implode(parts, d) != "" && Implode(parts, d)[0] == parts[0][0]
  {
  }

  /** An implode begins with its first part and, when there are two or
      more, with the first part, the delimiter and the second part. */
  lemma ImplodePrefix(parts: seq<string>, d: char)
    requires |parts| >= 1
    ensures var r := Implode(parts, d);
      |parts[0]| <= |r| && r[..|parts[0]|] == parts[0]
    ensures |parts| >= 2 ==> var r := Implode(parts, d); var n := |parts[0]| + 1 + |parts[1]|;
      n <= |r| && r[..n] == parts[0] + [d] + parts[1]
  {
    if |parts| >= 2 {
      var rest := Implode(parts[1..], d);
      if |parts| == 2 {
        assert rest == parts[1];
      } else {
        assert rest == parts[1] + [d] + Implode(parts[2..], d);
      }
      assert rest[..|parts[1]|] == parts[1];
    }
  }

  /** Regrouping a concatenation of three strings. */
  lemma Regroup(a: string, b: string, c: string)
    ensures a + (b + c) == (a + b) + c
  {
  }

  /** Appending text to the last part of an implode appends it to the whole. */
  lemma ImplodeTail(init: seq<string>, x: string, ext: string)
    ensures Implode(init + [x + "." + ext], '/') == Implode(init + [x], '/') + "." + ext
  {
    var e := "." + ext;
    assert x + "." + ext == x + e;
    if |init| > 0 {
      var a := Implode(init, '/');
      ImplodeSnoc(init, x + e, '/');
      ImplodeSnoc(init, x, '/');
      Regroup(a, ['/'] + x, e);
      Regroup(['/'], x, e);
    } else {
      assert init + [x + e] == [x + e];
      assert init + [x] == [x];
    }
  }

  /** explode(d, s): the pieces of s between occurrences of d. There is always
      at least one piece and no piece contains d. */
  function Split(s: string, d: char): (r: seq<string>)
    ensures |r| >= 1
    ensures forall i :: 0 <= i < |r| ==> d !in r[i]
  {
    if |s| == 0 then [""]
    else if s[0] == d then [""] + Split(s[1..], d)
    else
      var t := Split(s[1..], d);
      [[s[0]] + t[0]] + t[1..]
  }

  /** Removes the characters of cs from the front of s (PHP ltrim): what is
      left does not start with one of them. */
  function TrimLeft(s: string, cs: set<char>): (r: string)
    ensures r == "" || r[0] !in cs
  {
    if |s| > 0 && s[0] in cs then TrimLeft(s[1..], cs) else s
  }

  /** Removes the characters of cs from the back of s (PHP rtrim): what is
      left does not end with one of them. */
  function TrimRight(s: string, cs: set<char>): (r: string)
    ensures r == "" || r[|r| - 1] !in cs
  {
    if |s| > 0 && s[|s| - 1] in cs then TrimRight(s[..|s| - 1], cs) else s
  }

  /** ltrim keeps a suffix of s and removes only characters of cs. */
  lemma {:induction false} TrimLeftSuffix(s: string, cs: set<char>)
    ensures var r := TrimLeft(s, cs);
      |r| <= |s| && r == s[|s| - |r|..] && forall i :: 0 <= i < |s| - |r| ==> s[i] in cs
  {
    if |s| > 0 && s[0] in cs {
      TrimLeftSuffix(s[1..], cs);
    }
  }

  /** rtrim keeps a prefix of s and removes only characters of cs. */
  lemma {:induction false} TrimRightPrefix(s: string, cs: set<char>)
    ensures var r := TrimRight(s, cs);
      |r| <= |s| && r == s[..|r|] && forall i :: |r| <= i < |s| ==> s[i] in cs
  {
    if |s| > 0 && s[|s| - 1] in cs {
      TrimRightPrefix(s[..|s| - 1], cs);
    }
  }

  /** Removes the characters of cs from both ends of s (PHP trim). */
  function Trim(s: string, cs: set<char>): (r: string)
    ensures |r| <= |s|
  {
    TrimRightPrefix(s, cs);
    TrimLeftSuffix(TrimRight(s, cs), cs);
    TrimLeft(TrimRight(s, cs), cs)
  }

  /** explode gives more than one piece exactly when the delimiter occurs. */
  lemma {:induction false} SplitCount(s: string, d: char)
    ensures |Split(s, d)| == 1 <==> d !in s
  {
    if |s| > 0 {
      assert s == [s[0]] + s[1..];
      SplitCount(s[1..], d);
    }
  }

  /** implode undoes explode. */
  lemma {:induction false} ImplodeSplit(s: string, d: char)
    ensures Implode(Split(s, d), d) == s
  {
    if |s| > 0 {
      var t := Split(s[1..], d);
      ImplodeSplit(s[1..], d);
      assert s == [s[0]] + s[1..];
      if s[0] != d {
        var r := Split(s, d);
        assert r == [[s[0]] + t[0]] + t[1..];
        if |t| >= 2 {
          assert r[1..] == t[1..];
          calc {
            Implode(r, d);
            ([s[0]] + t[0]) + [d] + Implode(t[1..], d);
            [s[0]] + (t[0] + [d] + Implode(t[1..], d));
            [s[0]] + Implode(t, d);
          }
        }
      } else {
        assert Split(s, d) == [""] + t;
      }
    }
  }

  /** Splitting a string with a delimiter in it splits both sides separately. */
  lemma {:induction false} SplitAppend(a: string, b: string, d: char)
    ensures Split(a + [d] + b, d) == Split(a, d) + Split(b, d)
  {
    var s := a + [d] + b;
    if |a| == 0 {
      assert s == [d] + b;
      assert s[1..] == b;
    } else {
      assert s[0] == a[0];
      assert s[1..] == a[1..] + [d] + b;
      SplitAppend(a[1..], b, d);
    }
  }

  /** A string without the delimiter is its own single piece. */
  lemma SplitWithout(s: string, d: char)
    requires d !in s
    ensures Split(s, d) == [s]
  {
    SplitCount(s, d);
    ImplodeSplit(s, d);
  }

  /** explode inverts implode when no part contains the delimiter. */
  lemma {:induction false} SplitImplode(parts: seq<string>, d: char)
    requires |parts| >= 1
    requires forall i :: 0 <= i < |parts| ==> d !in parts[i]
    ensures Split(Implode(parts, d), d) == parts
  {
    SplitWithout(parts[0], d);
    if |parts| >= 2 {
      SplitImplode(parts[1..], d);
      SplitAppend(parts[0], Implode(parts[1..], d), d);
      assert parts == [parts[0]] + parts[1..];
    }
  }

  /** Imploding two non-empty lists is imploding each and joining with d. */
  lemma {:induction false} ImplodeAppend(a: seq<string>, b: seq<string>, d: char)
    requires |a| >= 1 && |b| >= 1
    ensures Implode(a + b, d) == Implode(a, d) + [d] + Implode(b, d)
  {
    if |a| >= 2 {
      assert (a + b)[1..] == a[1..] + b;
      ImplodeAppend(a[1..], b, d);
    } else {
      assert (a + b)[1..] == b;
    }
  }

  /** Imploding with one more part appends the delimiter and that part. */
  lemma ImplodeSnoc(a: seq<string>, x: string, d: char)
    requires |a| >= 1
    ensures Implode(a + [x], d) == Implode(a, d) + ([d] + x)
  {
    ImplodeAppend(a, [x], d);
  }

  /** No piece of explode(d, s) holds a character that s does not hold. */
  lemma {:induction false} SplitPiecesAvoid(s: string, d: char, e: char)
    requires e !in s
    ensures forall i :: 0 <= i < |Split(s, d)| ==> e !in Split(s, d)[i]
  {
    if |s| > 0 {
      assert e !in s[1..] by {
        assert forall k :: 0 <= k < |s| - 1 ==> s[1..][k] == s[k + 1];
      }
      SplitPiecesAvoid(s[1..], d, e);
    }
  }

  /** trim keeps every character that is not in its character list. */
  lemma TrimKeeps(s: string, cs: set<char>, k: nat)
    requires k < |s| && s[k] !in cs
    ensures s[k] in Trim(s, cs)
  {
    var right := TrimRight(s, cs);
    TrimRightPrefix(s, cs);
    assert k < |right| && right[k] == s[k];
    var left := TrimLeft(right, cs);
    TrimLeftSuffix(right, cs);
    var j := k - (|right| - |left|);
    assert 0 <= j < |left| && left[j] == s[k];
  }

  /** The result of trim neither starts nor ends with a character of its list. */
  lemma TrimEnds(s: string, cs: set<char>)
    ensures var r := Trim(s, cs); r == "" || (r[0] !in cs && r[|r| - 1] !in cs)
  {
    var right := TrimRight(s, cs);
    var r := TrimLeft(right, cs);
    TrimLeftSuffix(right, cs);
    assert r != "" ==> r[|r| - 1] == right[|right| - 1];
  }

  /** trim removes a leading character of its list in front of a string
      whose ends are not in the list. */
  lemma TrimLeading(c: char, s: string, cs: set<char>)
    requires c in cs
    requires s == "" || (s[0] !in cs && s[|s| - 1] !in cs)
    ensures Trim([c] + s, cs) == s
  {
    var t := [c] + s;
    if s == "" {
      assert TrimRight(t, cs) == TrimRight("", cs);
    } else {
      assert TrimRight(t, cs) == t;
      assert t[1..] == s;
      assert TrimLeft(t, cs) == TrimLeft(s, cs);
    }
  }

  /** trim leaves a string alone whose ends are not in the character list. */
  lemma TrimUntouched(s: string, cs: set<char>)
    requires s == "" || (s[0] !in cs && s[|s| - 1] !in cs)
    ensures Trim(s, cs) == s
  {
  }

  /** explode splits two pieces that do not hold the delimiter at the one
      delimiter between them. */
  lemma SplitPair(k: string, v: string, d: char)
    requires d !in k && d !in v
    ensures Split(k + [d] + v, d) == [k, v]
  {
    SplitAppend(k, v, d);
    SplitWithout(k, d);
    SplitWithout(v, d);
  }
}
