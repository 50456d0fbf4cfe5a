/** The few Python string built-ins the ingestion script relies on:
    `str.strip()` with no argument, and an f-string that puts single
    spaces between its parts. `SplitOnSpace` (Python's `s.split(" ")`)
    is not called by the script; it is the inverse used to show what the
    joined text determines. */
module PyText {

  /** Python's whitespace for `str.strip()` with no argument
      (`str.isspace()`): the ASCII controls 0x09-0x0D and 0x1C-0x1F, the
      space, NEL, NO-BREAK SPACE and the Unicode space separators. */
  predicate IsSpace(c: char)
  {
    var n := c as int;
    (0x09 <= n <= 0x0D) || (0x1C <= n <= 0x20) || n == 0x85 || n == 0xA0
    || n == 0x1680 || (0x2000 <= n <= 0x200A) || n == 0x2028 || n == 0x2029
    || n == 0x202F || n == 0x205F || n == 0x3000
  }

  /** Every character of `s` is whitespace (vacuously so for ""). */
  predicate AllSpace(s: string)
  {
    forall k :: 0 <= k < |s| ==> IsSpace(s[k])
  }

  /** `s` neither starts nor ends with whitespace. */
  predicate Trimmed(s: string)
  {
    s == [] || (!IsSpace(s[0]) && !IsSpace(s[|s| - 1]))
  }

  /** Drops the leading whitespace. */
  function StripStart(s: string): string
    decreases |s|
  {
    if s != [] && IsSpace(s[0]) then StripStart(s[1..]) else s
  }

  /** Drops the trailing whitespace. */
  function StripEnd(s: string): string
    decreases |s|
  {
    if s != [] && IsSpace(s[|s| - 1]) then StripEnd(s[..|s| - 1]) else s
  }

  /** `StripStart(s)` is the suffix of `s` that starts at its first
      non-whitespace character. */
  lemma {:induction false} StripStartSpec(s: string)
    ensures var r := StripStart(s);
      |r| <= |s| && r == s[|s| - |r|..]
      && (forall k :: 0 <= k < |s| - |r| ==> IsSpace(s[k]))
      && (r == [] || !IsSpace(r[0]))
    decreases |s|
  {
    if s != [] && IsSpace(s[0]) {
      StripStartSpec(s[1..]);
      var r := StripStart(s);
      assert s[1..][|s| - 1 - |r|..] == s[|s| - |r|..];
      forall k | 0 <= k < |s| - |r| ensures IsSpace(s[k]) {
        if k > 0 {
          assert s[k] == s[1..][k - 1];
        }
      }
    }
  }

  /** `StripEnd(s)` is the prefix of `s` that ends at its last
      non-whitespace character. */
  lemma {:induction false} StripEndSpec(s: string)
    ensures var r := StripEnd(s);
      |r| <= |s| && r == s[..|r|]
      && (forall k :: |r| <= k < |s| ==> IsSpace(s[k]))
      && (r == [] || !IsSpace(r[|r| - 1]))
    decreases |s|
  {
    if s != [] && IsSpace(s[|s| - 1]) {
      var p := s[..|s| - 1];
      StripEndSpec(p);
      var r := StripEnd(s);
      assert p[..|r|] == s[..|r|];
      forall k | |r| <= k < |s| ensures IsSpace(s[k]) {
        if k < |s| - 1 {
          assert s[k] == p[k];
        }
      }
    }
  }

  /** Python's `s.strip()`. */
  function Strip(s: string): string
  {
    StripEnd(StripStart(s))
  }

  /** A concatenation is all whitespace exactly when both halves are. */
  lemma AllSpaceConcat(a: string, b: string)
    ensures AllSpace(a + b) <==> AllSpace(a) && AllSpace(b)
  {
    if AllSpace(a + b) {
      forall k | 0 <= k < |a| ensures IsSpace(a[k]) {
        assert a[k] == (a + b)[k];
      }
      forall k | 0 <= k < |b| ensures IsSpace(b[k]) {
        assert b[k] == (a + b)[|a| + k];
      }
    }
    if AllSpace(a) && AllSpace(b) {
      forall k | 0 <= k < |a + b| ensures IsSpace((a + b)[k]) {
        if k < |a| {
          assert (a + b)[k] == a[k];
        } else {
          assert (a + b)[k] == b[k - |a|];
        }
      }
    }
  }

  /** `Strip(s)` is trimmed, and it is empty exactly when `s` is all
      whitespace. */
  lemma StripTrims(s: string)
    ensures Trimmed(Strip(s))
    ensures Strip(s) == [] <==> AllSpace(s)
  {
    var t := StripStart(s);
    var r := StripEnd(t);
    StripStartSpec(s);
    StripEndSpec(t);
    if r != [] {
      assert r[0] == t[0];
    }
  }

  /** If the first `i` characters are whitespace and character `i` is not,
      `StripStart` keeps exactly `s[i..]`. */
  lemma {:induction false} StripStartAt(s: string, i: nat)
    requires i <= |s|
    requires forall k :: 0 <= k < i ==> IsSpace(s[k])
    requires i < |s| ==> !IsSpace(s[i])
    ensures StripStart(s) == s[i..]
    decreases i
  {
    if i > 0 {
      assert IsSpace(s[0]);
      StripStartAt(s[1..], i - 1);
      assert s[1..][i - 1..] == s[i..];
    }
  }

  /** If the characters from `j` on are whitespace and character `j - 1`
      is not, `StripEnd` keeps exactly `s[..j]`. */
  lemma {:induction false} StripEndAt(s: string, j: nat)
    requires j <= |s|
    requires forall k :: j <= k < |s| ==> IsSpace(s[k])
    requires 0 < j ==> !IsSpace(s[j - 1])
    ensures StripEnd(s) == s[..j]
    decreases |s| - j
  {
    if j < |s| {
      assert IsSpace(s[|s| - 1]);
      var p := s[..|s| - 1];
      StripEndAt(p, j);
      assert p[..j] == s[..j];
    }
  }

  /** A string made only of whitespace strips to "". */
  lemma StripAllSpace(s: string)
    requires AllSpace(s)
    ensures Strip(s) == []
  {
    StripTrims(s);
  }

  /** The reference definition of `strip`: any slice `s[i..j]` that is
      trimmed and has only whitespace outside it is `Strip(s)`. */
  lemma StripUnique(s: string, i: nat, j: nat)
    requires i <= j <= |s|
    requires forall k :: 0 <= k < i ==> IsSpace(s[k])
    requires forall k :: j <= k < |s| ==> IsSpace(s[k])
    requires Trimmed(s[i..j])
    ensures Strip(s) == s[i..j]
  {
    if i == j {
      assert AllSpace(s) by {
        forall k | 0 <= k < |s| ensures IsSpace(s[k]) {
          if k < i { } else { }
        }
      }
      StripAllSpace(s);
    } else {
      StripSlice(s, i, j);
    }
  }

  lemma StripSlice(s: string, i: nat, j: nat)
    requires i < j <= |s|
    requires forall k :: 0 <= k < i ==> IsSpace(s[k])
    requires forall k :: j <= k < |s| ==> IsSpace(s[k])
    requires !IsSpace(s[i]) && !IsSpace(s[j - 1])
    ensures Strip(s) == s[i..j]
  {
    StripStartAt(s, i);
    var t := s[i..];
    assert t[j - i - 1] == s[j - 1];
    forall k | j - i <= k < |t| ensures IsSpace(t[k]) {
      assert t[k] == s[i + k];
    }
    StripEndAt(t, j - i);
    assert t[..j - i] == s[i..j];
  }

  /** Stripping twice is stripping once. */
  lemma StripIdempotent(s: string)
    ensures Strip(Strip(s)) == Strip(s)
  {
    var r := Strip(s);
    StripTrims(s);
    StripUnique(r, 0, |r|);
    assert r[0..|r|] == r;
  }

  /** The parts joined with one space between neighbours, as the f-string
      `f"{a} {b} ... {z}"` builds them. */
  function JoinWithSpaces(parts: seq<string>): string
    decreases |parts|
  {
    if |parts| == 0 then ""
    else if |parts| == 1 then parts[0]
    else parts[0] + " " + JoinWithSpaces(parts[1..])
  }

  /** Joining one more part in front adds it and one separator. */
  lemma JoinCons(p: string, rest: seq<string>)
    requires rest != []
    ensures JoinWithSpaces([p] + rest) == p + " " + JoinWithSpaces(rest)
  {
    assert ([p] + rest)[1..] == rest;
  }

  /** Total length of the parts. */
  function TotalLength(parts: seq<string>): nat
    decreases |parts|
  {
    if parts == [] then 0 else |parts[0]| + TotalLength(parts[1..])
  }

  /** Number of occurrences of `c` in `s`. */
  function Occurrences(c: char, s: string): nat
    decreases |s|
  {
    if s == [] then 0 else (if s[0] == c then 1 else 0) + Occurrences(c, s[1..])
  }

  /** Total number of occurrences of `c` in the parts. */
  function TotalOccurrences(c: char, parts: seq<string>): nat
    decreases |parts|
  {
    if parts == [] then 0 else Occurrences(c, parts[0]) + TotalOccurrences(c, parts[1..])
  }

  lemma {:induction false} OccurrencesAppend(c: char, a: string, b: string)
    ensures Occurrences(c, a + b) == Occurrences(c, a) + Occurrences(c, b)
    decreases |a|
  {
    if a != [] {
      assert (a + b)[1..] == a[1..] + b;
      OccurrencesAppend(c, a[1..], b);
    } else {
      assert a + b == b;
    }
  }

  /** Joining adds exactly one separator between each pair of neighbours:
      the length and the number of spaces both grow by `|parts| - 1`. */
  lemma {:induction false} JoinWithSpacesCounts(parts: seq<string>)
    requires parts != []
    ensures |JoinWithSpaces(parts)| == TotalLength(parts) + |parts| - 1
    ensures Occurrences(' ', JoinWithSpaces(parts)) == TotalOccurrences(' ', parts) + |parts| - 1
    decreases |parts|
  {
    if |parts| == 1 {
      assert parts[1..] == [];
    } else {
      var rest := JoinWithSpaces(parts[1..]);
      JoinWithSpacesCounts(parts[1..]);
      OccurrencesAppend(' ', parts[0], " ");
      OccurrencesAppend(' ', parts[0] + " ", rest);
      assert Occurrences(' ', " ") == 1 by {
        assert " "[1..] == [];
      }
    }
  }

  /** Position of the first space in `s`. */
  function FirstSpace(s: string): (k: nat)
    requires ' ' in s
    ensures k < |s| && s[k] == ' ' && ' ' !in s[..k]
    decreases |s|
  {
    if s[0] == ' ' then 0
    else
      var k := FirstSpace(s[1..]);
      assert s[..k + 1] == [s[0]] + s[1..][..k];
      k + 1
  }

  /** Python's `s.split(" ")`: the pieces between single spaces, empty
      pieces included. */
  function SplitOnSpace(s: string): (r: seq<string>)
    ensures r != []
    decreases |s|
  {
    if ' ' in s then
      var k := FirstSpace(s);
      [s[..k]] + SplitOnSpace(s[k + 1..])
    else [s]
  }

  /** Splitting undoes joining whenever no part itself holds a space. */
  lemma {:induction false} SplitJoin(parts: seq<string>)
    requires parts != []
    requires forall p :: p in parts ==> ' ' !in p
    ensures SplitOnSpace(JoinWithSpaces(parts)) == parts
    decreases |parts|
  {
    if |parts| == 1 {
      assert parts[0] in parts;
    } else {
      var head, tail := parts[0], parts[1..];
      assert head in parts;
      forall p | p in tail ensures ' ' !in p {
        assert p in parts;
      }
      SplitJoin(tail);
      SplitAfterSpaceFree(head, JoinWithSpaces(tail));
      assert [head] + tail == parts;
    }
  }

  /** `s` holds no space. */
  predicate SpaceFree(s: string)
  {
    ' ' !in s
  }

  /** Splitting a join gives back every part but the last whenever those
      hold no space; the last part is split on its own spaces. */
  lemma {:induction false} SplitJoinLeading(parts: seq<string>)
    requires parts != []
    requires forall k :: 0 <= k < |parts| - 1 ==> SpaceFree(parts[k])
    ensures SplitOnSpace(JoinWithSpaces(parts)) ==
      parts[..|parts| - 1] + SplitOnSpace(parts[|parts| - 1])
    decreases |parts|
  {
    var n := |parts| - 1;
    if n == 0 {
      assert parts[..n] == [];
    } else {
      var head, tail := parts[0], parts[1..];
      forall k | 0 <= k < |tail| - 1 ensures SpaceFree(tail[k]) {
        assert tail[k] == parts[k + 1];
      }
      assert SpaceFree(head);
      var last := SplitOnSpace(parts[n]);
      assert JoinWithSpaces(parts) == head + " " + JoinWithSpaces(tail) by {
        assert parts == [head] + tail;
        JoinCons(head, tail);
      }
      SplitAfterSpaceFree(head, JoinWithSpaces(tail));
      assert SplitOnSpace(JoinWithSpaces(tail)) == tail[..n - 1] + last by {
        SplitJoinLeading(tail);
        assert tail[n - 1] == parts[n];
      }
      calc {
        [head] + (tail[..n - 1] + last);
        ([head] + tail[..n - 1]) + last;
        { assert [head] + tail[..n - 1] == parts[..n]; }
        parts[..n] + last;
      }
    }
  }

  /** Two joins of equally many parts whose parts but the last hold no space
      are equal only when the parts are. */
  lemma JoinInjective(p: seq<string>, q: seq<string>)
    requires p != [] && |p| == |q|
    requires forall k :: 0 <= k < |p| - 1 ==> SpaceFree(p[k]) && SpaceFree(q[k])
    requires JoinWithSpaces(p) == JoinWithSpaces(q)
    ensures p == q
  {
    var n := |p| - 1;
    SplitJoinLeading(p);
    SplitJoinLeading(q);
    var s := SplitOnSpace(JoinWithSpaces(p));
    assert s == p[..n] + SplitOnSpace(p[n]);
    assert s == q[..n] + SplitOnSpace(q[n]);
    assert p[..n] == s[..n] == q[..n];
    assert SplitOnSpace(p[n]) == s[n..] == SplitOnSpace(q[n]);
    JoinSplit(p[n]);
    JoinSplit(q[n]);
    assert p == p[..n] + [p[n]];
    assert q == q[..n] + [q[n]];
  }

  /** A first piece without spaces is split off whole. */
  lemma SplitAfterSpaceFree(head: string, rest: string)
    requires ' ' !in head
    ensures SplitOnSpace(head + " " + rest) == [head] + SplitOnSpace(rest)
  {
    var s := head + " " + rest;
    assert s[|head|] == ' ';
    var k := FirstSpace(s);
    assert s[..|head|] == head;
    assert k == |head|;
    assert s[k + 1..] == rest;
  }

  /** Joining undoes splitting, for every string. */
  lemma {:induction false} JoinSplit(s: string)
    ensures JoinWithSpaces(SplitOnSpace(s)) == s
    decreases |s|
  {
    if ' ' in s {
      var k := FirstSpace(s);
      var rest := SplitOnSpace(s[k + 1..]);
      JoinSplit(s[k + 1..]);
      var parts := [s[..k]] + rest;
      assert parts[1..] == rest;
      assert s == s[..k] + " " + s[k + 1..];
    }
  }
}
