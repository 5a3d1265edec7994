/** Python's string built-ins as the candidate sampler uses them, on `seq<char>`:
    `" ".join`, `re.sub("\n", " ", _)`, `str.lower`, `re.split('[?.!]', _)` and
    `str.strip`. `lower` is modelled on the ASCII letters only. */
module PyStrings {

  /** The characters `str.isspace` accepts, which `str.strip()` without an argument removes. */
  predicate IsSpace(c: char)
  {
    || ('\t' <= c <= '\r')
    || ('\U{1C}' <= c <= ' ')
    || c == '\U{85}' || c == '\U{A0}' || c == '\U{1680}'
    || ('\U{2000}' <= c <= '\U{200A}')
    || c == '\U{2028}' || c == '\U{2029}' || c == '\U{202F}' || c == '\U{205F}' || c == '\U{3000}'
  }

  /** The sentence delimiters, the character class `[?.!]`. */
  predicate IsDelim(c: char)
  {
    c == '?' || c == '.' || c == '!'
  }

  predicate IsUpper(c: char)
  {
    'A' <= c <= 'Z'
  }

  /** `str.lower` on one character (ASCII letters only). */
  function Lower(c: char): char
  {
    if IsUpper(c) then (c as int + 32) as char else c
  }

  predicate NoDelim(s: string)
  {
    forall k :: 0 <= k < |s| ==> !IsDelim(s[k])
  }

  /** `a` occurs in `b` starting at position `i`. */
  predicate OccursAt(a: string, b: string, i: int)
  {
    0 <= i <= |b| - |a| && b[i..i + |a|] == a
  }

  /** `a` occurs in `b` as a contiguous run of characters. */
  ghost predicate IsSubstring(a: string, b: string)
  {
    exists i :: OccursAt(a, b, i)
  }

  lemma SubstringChars(a: string, b: string)
    requires IsSubstring(a, b)
    ensures forall k :: 0 <= k < |a| ==> a[k] in b
  {
    var i :| OccursAt(a, b, i);
    forall k | 0 <= k < |a|
      ensures a[k] in b
    {
      assert a[k] == b[i + k];
    }
  }

  lemma SubstringTrans(a: string, b: string, c: string)
    requires IsSubstring(a, b) && IsSubstring(b, c)
    ensures IsSubstring(a, c)
  {
    var i :| OccursAt(a, b, i);
    var j :| OccursAt(b, c, j);
    assert forall k :: 0 <= k < |a| ==> a[k] == b[i + k] == c[j + i + k];
    assert c[j + i..j + i + |a|] == a;
    assert OccursAt(a, c, j + i);
  }

  lemma SliceIsSubstring(s: string, i: nat, j: nat)
    requires i <= j <= |s|
    ensures IsSubstring(s[i..j], s)
  {
    assert OccursAt(s[i..j], s, i);
  }

  // ---------------------------------------------------------------------------
  // " ".join(ts)

  /** `" ".join(ts)`. */
  function JoinSpaces(ts: seq<string>): string
  {
    if |ts| == 0 then []
    else if |ts| == 1 then ts[0]
    else ts[0] + " " + JoinSpaces(ts[1..])
  }

  function TotalLength(ts: seq<string>): nat
  {
    if ts == [] then 0 else |ts[0]| + TotalLength(ts[1..])
  }

  /** Where piece `i` starts in `" ".join(ts)`: the sum of `|ts[j]| + 1` over
      the pieces `j` before it. */
  function JoinOffset(ts: seq<string>, i: nat): nat
    requires i <= |ts|
  {
    if i == 0 then 0 else |ts[0]| + 1 + JoinOffset(ts[1..], i - 1)
  }

  /** An occurrence in `b` is one in `p + b`, shifted by `|p|`. */
  lemma OccursAfter(a: string, b: string, p: string, i: int)
    requires OccursAt(a, b, i)
    ensures OccursAt(a, p + b, |p| + i)
  {
    assert (p + b)[|p| + i..|p| + i + |a|] == b[i..i + |a|];
  }

  /** `" ".join(ts)` is the pieces in order, piece `i` at `JoinOffset(ts, i)`,
      each but the last followed by one blank, and nothing else. */
  lemma {:induction false} JoinSpacesKeepsTexts(ts: seq<string>)
    ensures |JoinSpaces(ts)| == if ts == [] then 0 else TotalLength(ts) + |ts| - 1
    ensures forall i :: 0 <= i < |ts| ==> OccursAt(ts[i], JoinSpaces(ts), JoinOffset(ts, i))
    ensures forall i :: 0 <= i < |ts| - 1 ==> OccursAt(ts[i] + " ", JoinSpaces(ts), JoinOffset(ts, i))
  {
    if |ts| == 1 {
      assert OccursAt(ts[0], JoinSpaces(ts), 0);
    } else if |ts| > 1 {
      var rest := JoinSpaces(ts[1..]);
      var r := JoinSpaces(ts);
      var head := ts[0] + " ";
      JoinSpacesKeepsTexts(ts[1..]);
      assert r == head + rest;
      assert r[0..|ts[0]|] == ts[0];
      assert r[0..|head|] == head;
      forall i | 1 <= i < |ts|
        ensures OccursAt(ts[i], r, JoinOffset(ts, i))
        ensures i < |ts| - 1 ==> OccursAt(ts[i] + " ", r, JoinOffset(ts, i))
      {
        assert ts[i] == ts[1..][i - 1];
        OccursAfter(ts[i], rest, head, JoinOffset(ts[1..], i - 1));
        if i < |ts| - 1 {
          OccursAfter(ts[i] + " ", rest, head, JoinOffset(ts[1..], i - 1));
        }
      }
    }
  }

  // ---------------------------------------------------------------------------
  // re.sub("\n", " ", s).lower()

  /** `re.sub("\n", " ", s).lower()`: every newline becomes a blank and every
      upper-case letter its lower-case form; nothing else changes. */
  function Normalise(s: string): (r: string)
    ensures |r| == |s|
    ensures forall k :: 0 <= k < |r| ==> r[k] != '\n' && !IsUpper(r[k])
    ensures forall k :: 0 <= k < |r| ==> (IsDelim(r[k]) <==> IsDelim(s[k]))
    ensures forall k :: 0 <= k < |r| ==> s[k] == '\n' ==> r[k] == ' '
    ensures forall k :: 0 <= k < |r| ==> IsUpper(s[k]) ==> r[k] as int == s[k] as int + 32
    ensures forall k :: 0 <= k < |r| ==> !IsUpper(s[k]) && s[k] != '\n' ==> r[k] == s[k]
  {
    var spaced := seq(|s|, k requires 0 <= k < |s| => if s[k] == '\n' then ' ' else s[k]);
    seq(|spaced|, k requires 0 <= k < |spaced| => Lower(spaced[k]))
  }

  lemma NormaliseIdempotent(s: string)
    ensures Normalise(Normalise(s)) == Normalise(s)
  {
  }

  // ---------------------------------------------------------------------------
  // re.split('[?.!]', s)

  /** The position of the first delimiter in `s`, or `|s|` when there is none. */
  function DelimIndex(s: string): (k: nat)
    ensures k <= |s|
    ensures forall m :: 0 <= m < k ==> !IsDelim(s[m])
    ensures k < |s| ==> IsDelim(s[k])
  {
    if s == [] || IsDelim(s[0]) then 0 else 1 + DelimIndex(s[1..])
  }

  /** `re.split('[?.!]', s)`: the pieces between delimiters, empty pieces included. */
  function SplitDelims(s: string): (r: seq<string>)
    ensures |r| >= 1
    ensures forall k :: 0 <= k < |r| ==> NoDelim(r[k])
    decreases |s|
  {
    var k := DelimIndex(s);
    if k == |s| then [s] else [s[..k]] + SplitDelims(s[k + 1..])
  }

  /** `s` with its delimiters taken out. */
  function WithoutDelims(s: string): string
  {
    if s == [] then [] else (if IsDelim(s[0]) then [] else [s[0]]) + WithoutDelims(s[1..])
  }

  function Flatten(ss: seq<string>): string
  {
    if ss == [] then [] else ss[0] + Flatten(ss[1..])
  }

  lemma {:induction false} WithoutDelimsAppend(a: string, b: string)
    ensures WithoutDelims(a + b) == WithoutDelims(a) + WithoutDelims(b)
  {
    if a != [] {
      assert (a + b)[1..] == a[1..] + b;
      WithoutDelimsAppend(a[1..], b);
    } else {
      assert a + b == b;
    }
  }

  lemma {:induction false} WithoutDelimsOfNoDelim(s: string)
    requires NoDelim(s)
    ensures WithoutDelims(s) == s
  {
    if s != [] {
      WithoutDelimsOfNoDelim(s[1..]);
    }
  }

  /** Splitting is lossless apart from the delimiters: the pieces, laid end to
      end, are `s` without its delimiters, and there is one piece more than
      there are delimiters. `SplitDelimsRejoin` below states the round trip
      in full, with the delimiters in place; this is the coarser view of it. */
  lemma {:induction false} SplitDelimsPartition(s: string)
    ensures Flatten(SplitDelims(s)) == WithoutDelims(s)
    ensures |SplitDelims(s)| == |s| - |WithoutDelims(s)| + 1
    decreases |s|
  {
    var k := DelimIndex(s);
    if k == |s| {
      assert NoDelim(s);
      WithoutDelimsOfNoDelim(s);
      assert SplitDelims(s) == [s];
      assert Flatten([s]) == s + Flatten([]);
    } else {
      var head, rest := s[..k], s[k + 1..];
      var pieces := SplitDelims(rest);
      SplitDelimsPartition(rest);
      assert SplitDelims(s) == [head] + pieces;
      WithoutDelimsAroundDelim(s, k);
      assert NoDelim(head);
      WithoutDelimsOfNoDelim(head);
      assert ([head] + pieces)[1..] == pieces;
      assert Flatten([head] + pieces) == head + Flatten(pieces);
    }
  }

  lemma {:induction false} WithoutDelimsAroundDelim(s: string, k: nat)
    requires k < |s| && IsDelim(s[k])
    ensures WithoutDelims(s) == WithoutDelims(s[..k]) + WithoutDelims(s[k + 1..])
  {
    var head, rest := s[..k], [s[k]] + s[k + 1..];
    assert s == head + rest;
    WithoutDelimsAppend(head, rest);
    assert rest[0] == s[k] && rest[1..] == s[k + 1..];
  }

  /** The delimiters of `s`, in order. */
  function DelimsOf(s: string): string
  {
    if s == [] then [] else (if IsDelim(s[0]) then [s[0]] else []) + DelimsOf(s[1..])
  }

  /** The pieces laid end to end with `seps[k]` put back between piece `k`
      and piece `k + 1`. */
  function Rejoin(pieces: seq<string>, seps: string): string
    requires |pieces| == |seps| + 1
  {
    if |seps| == 0 then pieces[0] else pieces[0] + [seps[0]] + Rejoin(pieces[1..], seps[1..])
  }

  lemma {:induction false} DelimsOfAppend(a: string, b: string)
    ensures DelimsOf(a + b) == DelimsOf(a) + DelimsOf(b)
  {
    if a != [] {
      assert (a + b)[1..] == a[1..] + b;
      DelimsOfAppend(a[1..], b);
    } else {
      assert a + b == b;
    }
  }

  lemma {:induction false} DelimsOfNoDelim(s: string)
    requires NoDelim(s)
    ensures DelimsOf(s) == []
  {
    if s != [] {
      DelimsOfNoDelim(s[1..]);
    }
  }

  lemma {:induction false} RejoinCons(head: string, pieces: seq<string>, c: char, seps: string)
    requires |pieces| == |seps| + 1
    ensures Rejoin([head] + pieces, [c] + seps) == head + [c] + Rejoin(pieces, seps)
  {
    assert ([head] + pieces)[1..] == pieces && ([c] + seps)[1..] == seps;
  }

  lemma {:induction false} DelimsOfAroundDelim(s: string, k: nat)
    requires k < |s| && IsDelim(s[k]) && NoDelim(s[..k])
    ensures DelimsOf(s) == [s[k]] + DelimsOf(s[k + 1..])
  {
    var head, rest := s[..k], [s[k]] + s[k + 1..];
    assert s == head + rest;
    DelimsOfAppend(head, rest);
    DelimsOfNoDelim(head);
    assert rest[0] == s[k] && rest[1..] == s[k + 1..];
  }

  /** `s` is its part before `k`, the character at `k` and its part after `k`. */
  lemma {:induction false} AroundIndex(s: string, k: nat)
    requires k < |s|
    ensures s[..k] + [s[k]] + s[k + 1..] == s
  {
    assert s[k..] == [s[k]] + s[k + 1..];
    assert s == s[..k] + s[k..];
  }

  /** The split cuts at the first delimiter and goes on after it. */
  lemma {:induction false} SplitAtFirstDelim(s: string, k: nat)
    requires k == DelimIndex(s) < |s|
    ensures SplitDelims(s) == [s[..k]] + SplitDelims(s[k + 1..])
  {
  }

  /** One step of the round trip: if it holds for the text after the first
      delimiter, it holds for the whole text. */
  lemma {:induction false} RejoinAtFirstDelim(s: string, k: nat)
    requires k == DelimIndex(s) < |s|
    requires var rest := s[k + 1..];
             |SplitDelims(rest)| == |DelimsOf(rest)| + 1 && Rejoin(SplitDelims(rest), DelimsOf(rest)) == rest
    ensures |SplitDelims(s)| == |DelimsOf(s)| + 1
    ensures Rejoin(SplitDelims(s), DelimsOf(s)) == s
  {
    SplitAtFirstDelim(s, k);
    DelimsOfAroundDelim(s, k);
    RejoinCons(s[..k], SplitDelims(s[k + 1..]), s[k], DelimsOf(s[k + 1..]));
    AroundIndex(s, k);
  }

  /** The split is undone by putting the delimiters of `s` back, in order,
      between the pieces: piece `k` runs from just after the `k`-th delimiter
      to just before the next one. */
  lemma {:induction false} SplitDelimsRejoin(s: string)
    ensures |SplitDelims(s)| == |DelimsOf(s)| + 1
    ensures Rejoin(SplitDelims(s), DelimsOf(s)) == s
    decreases |s|
  {
    var k := DelimIndex(s);
    if k == |s| {
      assert NoDelim(s);
      DelimsOfNoDelim(s);
    } else {
      SplitDelimsRejoin(s[k + 1..]);
      RejoinAtFirstDelim(s, k);
    }
  }

  /** The split is the only way to cut `s` into delimiter-free pieces that
      give `s` back when the delimiters `seps` are put between them. */
  lemma {:induction false} SplitDelimsUnique(s: string, pieces: seq<string>, seps: string)
    requires |pieces| == |seps| + 1
    requires forall k :: 0 <= k < |pieces| ==> NoDelim(pieces[k])
    requires forall k :: 0 <= k < |seps| ==> IsDelim(seps[k])
    requires Rejoin(pieces, seps) == s
    ensures SplitDelims(s) == pieces
    decreases |seps|
  {
    var head := pieces[0];
    assert NoDelim(head);
    if |seps| == 0 {
      assert s == head;
      assert DelimIndex(s) == |s|;
    } else {
      var rest := Rejoin(pieces[1..], seps[1..]);
      assert s == head + [seps[0]] + rest;
      assert forall m :: 0 <= m < |head| ==> s[m] == head[m];
      assert IsDelim(s[|head|]);
      assert DelimIndex(s) == |head|;
      assert s[..|head|] == head && s[|head| + 1..] == rest;
      SplitDelimsUnique(rest, pieces[1..], seps[1..]);
      assert pieces == [head] + pieces[1..];
    }
  }

  /** Every piece of the split is a contiguous part of the text. */
  lemma {:induction false} SplitDelimsPieces(s: string)
    ensures forall k :: 0 <= k < |SplitDelims(s)| ==> IsSubstring(SplitDelims(s)[k], s)
    decreases |s|
  {
    var d := DelimIndex(s);
    var r := SplitDelims(s);
    if d == |s| {
      assert OccursAt(s, s, 0);
    } else {
      var rest := s[d + 1..];
      var tail := SplitDelims(rest);
      assert r == [s[..d]] + tail;
      SplitDelimsPieces(rest);
      SliceIsSubstring(s, d + 1, |s|);
      assert s[d + 1..|s|] == rest;
      forall k | 0 <= k < |r|
        ensures IsSubstring(r[k], s)
      {
        if k == 0 {
          assert OccursAt(s[..d], s, 0);
        } else {
          assert r[k] == tail[k - 1];
          assert IsSubstring(tail[k - 1], rest);
          SubstringTrans(r[k], rest, s);
        }
      }
    }
  }

  // ---------------------------------------------------------------------------
  // str.strip()

  /** Where `s[i..].lstrip()` starts: the first non-whitespace position from `i` on. */
  function SkipSpaces(s: string, i: nat): (k: nat)
    requires i <= |s|
    ensures i <= k <= |s|
    ensures forall m :: i <= m < k ==> IsSpace(s[m])
    ensures k < |s| ==> !IsSpace(s[k])
    decreases |s| - i
  {
    if i < |s| && IsSpace(s[i]) then SkipSpaces(s, i + 1) else i
  }

  /** Where `s[lo..j].rstrip()` ends: the end of the last non-whitespace character. */
  function SkipSpacesBack(s: string, lo: nat, j: nat): (k: nat)
    requires lo <= j <= |s|
    ensures lo <= k <= j
    ensures forall m :: k <= m < j ==> IsSpace(s[m])
    ensures k > lo ==> !IsSpace(s[k - 1])
  {
    if j > lo && IsSpace(s[j - 1]) then SkipSpacesBack(s, lo, j - 1) else j
  }

  /** `r` is `s` at position `i` with only whitespace before and after it. */
  predicate TrimmedAt(s: string, r: string, i: int)
  {
    && OccursAt(r, s, i)
    && (forall k :: 0 <= k < i ==> IsSpace(s[k]))
    && (forall k :: i + |r| <= k < |s| ==> IsSpace(s[k]))
  }

  /** `s.strip()`: `s` without its leading and trailing whitespace. */
  function Strip(s: string): (r: string)
    ensures |r| <= |s|
    ensures r != [] ==> !IsSpace(r[0]) && !IsSpace(r[|r| - 1])
  {
    var lo := SkipSpaces(s, 0);
    s[lo..SkipSpacesBack(s, lo, |s|)]
  }

  /** What `strip` removes is whitespace only, and what it keeps is one
      contiguous run of `s`. */
  lemma StripTrims(s: string)
    ensures exists i :: TrimmedAt(s, Strip(s), i)
  {
    var lo := SkipSpaces(s, 0);
    var hi := SkipSpacesBack(s, lo, |s|);
    assert TrimmedAt(s, Strip(s), lo);
  }

  lemma StripIsSubstring(s: string)
    ensures IsSubstring(Strip(s), s)
  {
    StripTrims(s);
    var i :| TrimmedAt(s, Strip(s), i);
  }

  /** `strip` is idempotent. */
  lemma StripIdempotent(s: string)
    ensures Strip(Strip(s)) == Strip(s)
  {
    var r := Strip(s);
    var r2 := Strip(r);
    StripTrims(r);
    var i :| TrimmedAt(r, r2, i);
    if r != [] {
      assert i == 0;
      assert |r2| == |r|;
    }
  }

  // ---------------------------------------------------------------------------
  // [x.strip() for x in segs if len(x.strip()) > 1]

  /** What survives the filter: at least two characters, no whitespace at either end. */
  predicate IsSentence(x: string)
  {
    |x| >= 2 && !IsSpace(x[0]) && !IsSpace(x[|x| - 1])
  }

  /** The filter condition `len(x.strip()) > 1`. */
  predicate Survives(x: string)
  {
    |Strip(x)| > 1
  }

  /** `[x.strip() for x in segs]`. */
  function StripAll(segs: seq<string>): (r: seq<string>)
    ensures |r| == |segs|
    ensures forall i :: 0 <= i < |r| ==> r[i] == Strip(segs[i])
  {
    seq(|segs|, i requires 0 <= i < |segs| => Strip(segs[i]))
  }

  /** `[x for x in xs if len(x) > 1]`. */
  function Long(xs: seq<string>): (r: seq<string>)
    ensures |r| <= |xs|
  {
    if xs == [] then []
    else Long(xs[..|xs| - 1]) + (if |xs[|xs| - 1]| > 1 then [xs[|xs| - 1]] else [])
  }

  /** The positions in `xs` of the strings `Long` keeps. */
  function LongPositions(xs: seq<string>): seq<nat>
  {
    if xs == [] then []
    else LongPositions(xs[..|xs| - 1]) + (if |xs[|xs| - 1]| > 1 then [|xs| - 1] else [])
  }

  /** The kept positions are positions of `xs`, in increasing order. */
  lemma {:induction false} LongPositionsIncreasing(xs: seq<string>)
    ensures var p := LongPositions(xs);
      && (forall q :: 0 <= q < |p| ==> p[q] < |xs|)
      && (forall q, q' :: 0 <= q < q' < |p| ==> p[q] < p[q'])
  {
    if xs != [] {
      var n := |xs|;
      var init := xs[..n - 1];
      LongPositionsIncreasing(init);
      var p0 := LongPositions(init);
      assert forall q :: 0 <= q < |p0| ==> p0[q] < n - 1 by {
        assert var p0 := LongPositions(init); forall q :: 0 <= q < |p0| ==> p0[q] < |init|;
      }
      assert forall q, q' :: 0 <= q < q' < |p0| ==> p0[q] < p0[q'] by {
        assert var p0 := LongPositions(init); forall q, q' :: 0 <= q < q' < |p0| ==> p0[q] < p0[q'];
      }
      var tail: seq<nat> := if |xs[n - 1]| > 1 then [n - 1] else [];
      var p := LongPositions(xs);
      assert p == p0 + tail;
      forall q | 0 <= q < |p|
        ensures p[q] < n
      {
        if q < |p0| {
          assert p[q] == p0[q];
        }
      }
      forall q, q' | 0 <= q < q' < |p|
        ensures p[q] < p[q']
      {
        assert p[q] == p0[q];
        if q' < |p0| {
          assert p[q'] == p0[q'];
        } else {
          assert p[q'] == tail[0] == n - 1;
        }
      }
    }
  }

  /** A position is kept exactly when the string there is longer than one character. */
  lemma {:induction false} LongPositionsExact(xs: seq<string>)
    ensures var p := LongPositions(xs);
      forall i :: 0 <= i < |xs| ==> (|xs[i]| > 1 <==> i in p)
  {
    if xs != [] {
      var n := |xs|;
      var init := xs[..n - 1];
      LongPositionsExact(init);
      LongPositionsIncreasing(init);
      var p0 := LongPositions(init);
      assert forall i :: 0 <= i < n - 1 ==> (|init[i]| > 1 <==> i in p0) by {
        assert var p0 := LongPositions(init); forall i :: 0 <= i < |init| ==> (|init[i]| > 1 <==> i in p0);
      }
      assert n - 1 !in p0 by {
        assert var p0 := LongPositions(init); forall q :: 0 <= q < |p0| ==> p0[q] < |init|;
      }
      var tail: seq<nat> := if |xs[n - 1]| > 1 then [n - 1] else [];
      assert LongPositions(xs) == p0 + tail;
      forall i | 0 <= i < n
        ensures |xs[i]| > 1 <==> i in p0 + tail
      {
        if i < n - 1 {
          assert init[i] == xs[i];
          assert i !in tail;
        }
      }
    }
  }

  /** The `q`-th kept string is the one at the `q`-th kept position. */
  lemma {:induction false} LongAt(xs: seq<string>)
    ensures var r, p := Long(xs), LongPositions(xs);
      && |p| == |r|
      && (forall q :: 0 <= q < |p| ==> p[q] < |xs| && r[q] == xs[p[q]] && |r[q]| > 1)
  {
    if xs != [] {
      var n := |xs|;
      var init := xs[..n - 1];
      LongAt(init);
      var r0, p0 := Long(init), LongPositions(init);
      assert |p0| == |r0| && forall q :: 0 <= q < |p0| ==> p0[q] < n - 1 && r0[q] == init[p0[q]] by {
        assert var r0, p0 := Long(init), LongPositions(init);
          forall q :: 0 <= q < |p0| ==> p0[q] < |init| && r0[q] == init[p0[q]];
      }
      assert forall q :: 0 <= q < |r0| ==> |r0[q]| > 1 by {
        assert var r0, p0 := Long(init), LongPositions(init); forall q :: 0 <= q < |p0| ==> |r0[q]| > 1;
      }
      var last := xs[n - 1];
      var tr: seq<string>, tp: seq<nat> := if |last| > 1 then [last] else [], if |last| > 1 then [n - 1] else [];
      var r, p := Long(xs), LongPositions(xs);
      assert r == r0 + tr && p == p0 + tp;
      forall q | 0 <= q < |p|
        ensures p[q] < n && r[q] == xs[p[q]] && |r[q]| > 1
      {
        if q < |p0| {
          assert p[q] == p0[q] && r[q] == r0[q];
          assert init[p0[q]] == xs[p0[q]];
        } else {
          assert p[q] == tp[0] && r[q] == tr[0];
        }
      }
    }
  }

  /** `[x.strip() for x in segs if len(x.strip()) > 1]`: every kept string
      is a sentence. */
  function KeepSentences(segs: seq<string>): (r: seq<string>)
    ensures |r| <= |segs|
    ensures forall k :: 0 <= k < |r| ==> IsSentence(r[k])
  {
    var xs := StripAll(segs);
    LongAt(xs);
    Long(xs)
  }

  /** The positions in `segs` of the pieces `KeepSentences` keeps. */
  function KeptPositions(segs: seq<string>): seq<nat>
  {
    LongPositions(StripAll(segs))
  }

  /** The kept sentences are exactly the stripped pieces longer than one
      character, in their original order. */
  lemma KeepSentencesOrder(segs: seq<string>)
    ensures var r, p := KeepSentences(segs), KeptPositions(segs);
      && |p| == |r|
      && (forall q :: 0 <= q < |p| ==> p[q] < |segs| && r[q] == Strip(segs[p[q]]))
      && (forall q, q' :: 0 <= q < q' < |p| ==> p[q] < p[q'])
      && (forall i :: 0 <= i < |segs| ==> (Survives(segs[i]) <==> i in p))
  {
    var xs := StripAll(segs);
    LongPositionsIncreasing(xs);
    LongPositionsExact(xs);
    LongAt(xs);
  }

  /** Every sentence kept from the split of `text` is a contiguous part of
      `text` with no delimiter, at least two characters and no whitespace at
      either end. */
  lemma SentencesOf(text: string)
    ensures forall x :: x in KeepSentences(SplitDelims(text)) ==>
              IsSentence(x) && NoDelim(x) && IsSubstring(x, text)
  {
    var segs := SplitDelims(text);
    var r := KeepSentences(segs);
    KeepSentencesOrder(segs);
    SplitDelimsPieces(text);
    forall x | x in r
      ensures IsSentence(x) && NoDelim(x) && IsSubstring(x, text)
    {
      var q :| 0 <= q < |r| && r[q] == x;
      var seg := segs[KeptPositions(segs)[q]];
      StripIsSubstring(seg);
      SubstringTrans(x, seg, text);
      SubstringChars(x, seg);
      assert NoDelim(seg);
    }
  }
}
