/** Paths (kernel/fs.c): two tokenizers that agree, and canonical paths. */
module Paths {
  import opened Lists

  const SLASH := '/'
  const NUL := '\0'

  /** A C string does not contain its terminator. */
  predicate CString(p: string) {
    forall i | 0 <= i < |p| :: p[i] != NUL
  }

  /** The length of the first element of `p`. */
  function ElementSize(p: string): (n: nat)
    ensures n <= |p| && (forall i | 0 <= i < n :: p[i] != SLASH) && (n < |p| ==> p[n] == SLASH)
  {
    if p == [] || p[0] == SLASH then 0 else 1 + ElementSize(p[1..])
  }

  /** What a path denotes: its non-empty components, in order. */
  function Tokens(p: string): (ts: seq<string>)
    ensures forall t | t in ts :: t != []
    decreases |p|
  {
    if p == [] then []
    else if p[0] == SLASH then Tokens(p[1..])
    else [p[..ElementSize(p)]] + Tokens(p[ElementSize(p)..])
  }

  /** Components never contain a slash, nor a NUL if the path does not. */
  lemma {:induction false} TokensClean(p: string)
    requires CString(p)
    ensures forall t | t in Tokens(p) :: CString(t) && SLASH !in t
    decreases |p|
  {
    if p != [] {
      TokensClean(if p[0] == SLASH then p[1..] else p[ElementSize(p)..]);
    }
  }

  /** `path_element_size` */
  method PathElementSize(path: string, start: nat) returns (n: nat)
    requires start <= |path|
    ensures n == ElementSize(path[start..])
  {
    n := 0;
    while start + n < |path| && path[start + n] != SLASH
      invariant start + n <= |path| && ElementSize(path[start..]) == n + ElementSize(path[start + n..])
    {
      assert path[start + n..][1..] == path[start + n + 1..];
      n := n + 1;
    }
  }

  // ----- tokenize_path_list -----

  lemma TokensStep(p: string)
    requires p != []
    ensures Tokens(p) ==
            if p[0] == SLASH then Tokens(p[1..]) else [p[..ElementSize(p)]] + Tokens(p[ElementSize(p)..])
    ensures p[0] != SLASH ==> ElementSize(p) > 0
  {
  }

  /** One round of the list tokenizer: the element at the front, and what follows its separator. */
  lemma TokensNext(p: string)
    requires p != []
    ensures var n := ElementSize(p);
            Tokens(p) == (if n == 0 then [] else [p[..n]]) + Tokens(if n + 1 < |p| then p[n + 1..] else [])
  {
    var n := ElementSize(p);
    if n == |p| {
      assert p[n..] == [];
    } else {
      assert p[n..][0] == SLASH && p[n..][1..] == p[n + 1..];
      assert n + 1 == |p| ==> p[n + 1..] == [];
    }
  }

  /** The components from place `i` on; `i` may be one past the end. */
  function Rest(path: string, i: nat): seq<string> {
    Tokens(if i < |path| then path[i..] else [])
  }

  lemma RestNext(path: string, i: nat)
    requires i < |path|
    ensures var n := ElementSize(path[i..]);
            i + n <= |path| && Rest(path, i) == (if n == 0 then [] else [path[i..i + n]]) + Rest(path, i + n + 1)
  {
    hide Tokens, ElementSize;
    var p, n := path[i..], ElementSize(path[i..]);
    TokensNext(p);
    assert p[..n] == path[i..i + n];
    assert n + 1 < |p| ==> p[n + 1..] == path[i + n + 1..];
  }

  lemma RestAll(path: string)
    ensures [] + Rest(path, 0) == Tokens(path)
    ensures forall i: nat, c: seq<string> | i >= |path| :: c + Rest(path, i) == c
  {
    assert path[0..] == path;
  }

  /** `tokenize_path_list`; allocation does not fail, and `node` numbers the list's nodes. */
  method TokenizePathList(path: string) returns (elements: List<string>)
    ensures fresh(elements) && elements.Valid() && elements.Contents() == Tokens(path)
    ensures forall n | n in elements.nodes :: n <= |path|
  {
    hide List.Valid, List.Contents, Tokens, Rest, ElementSize;
    elements := new List();
    var i := 0;
    RestAll(path);
    while i < |path|
      invariant elements.Valid() && fresh(elements)
      invariant forall n | n in elements.nodes :: n <= i && n <= |path|
      invariant elements.Contents() + Rest(path, i) == Tokens(path)
    {
      RestNext(path, i);
      var j := PathElementSize(path, i);
      var s := path[i..i + j];
      ghost var c, r := elements.Contents(), Rest(path, i + j + 1);
      if |s| != 0 {
        elements.Insert(s, i + 1);
        assert c + [s] + r == c + ([s] + r);
      }
      i := i + j + 1;
    }
  }

  // ----- tokenize_path -----

  /** Tokens laid out in a buffer, each closed by a NUL. */
  function Flat(ts: seq<string>): string {
    if ts == [] then [] else Flat(ts[..|ts| - 1]) + ts[|ts| - 1] + [NUL]
  }

  function Zeros(n: nat): (z: string)
    ensures |z| == n && forall i | 0 <= i < n :: z[i] == NUL
  {
    seq(n, i => NUL)
  }

  /** `strlen` */
  function StrLen(s: string): (n: nat)
    ensures n <= |s| && (forall i | 0 <= i < n :: s[i] != NUL) && (n < |s| ==> s[n] == NUL)
  {
    if s == [] || s[0] == NUL then 0 else 1 + StrLen(s[1..])
  }

  /** How the loops over a token buffer read it: token after token, up to an empty one. */
  function Decode(s: string): seq<string>
    decreases |s|
  {
    if s == [] || s[0] == NUL || StrLen(s) == |s| then [] else [s[..StrLen(s)]] + Decode(s[StrLen(s) + 1..])
  }

  predicate Cleans(ts: seq<string>) {
    forall t | t in ts :: t != [] && CString(t)
  }

  lemma {:induction false} StrLenIs(t: string, s: string)
    requires CString(t) && t <= s && |t| < |s| && s[|t|] == NUL
    ensures StrLen(s) == |t|
  {
    if t != [] {
      assert s[0] == t[0];
      StrLenIs(t[1..], s[1..]);
    }
  }

  function FlatFront(ts: seq<string>): string {
    if ts == [] then [] else ts[0] + [NUL] + FlatFront(ts[1..])
  }

  lemma {:induction false} FlatIsFront(ts: seq<string>)
    ensures Flat(ts) == FlatFront(ts)
    decreases |ts|
  {
    if |ts| == 1 {
      assert ts[..0] == [] && ts[1..] == [];
    } else if ts != [] {
      var m := |ts| - 1;
      FlatIsFront(ts[..m]);
      FlatIsFront(ts[1..]);
      FlatIsFront(ts[1..][..m - 1]);
      assert ts[..m][1..] == ts[1..][..m - 1];
      assert ts[..m][0] == ts[0] && ts[1..][m - 1] == ts[m];
      calc {
        Flat(ts);
        FlatFront(ts[..m]) + ts[m] + [NUL];
        ts[0] + [NUL] + FlatFront(ts[1..][..m - 1]) + ts[m] + [NUL];
        ts[0] + [NUL] + (Flat(ts[1..][..m - 1]) + ts[m] + [NUL]);
        ts[0] + [NUL] + FlatFront(ts[1..]);
      }
    }
  }

  /** A token buffer is read back as the tokens that were laid out in it. */
  lemma {:induction false} DecodeFlat(ts: seq<string>, n: nat)
    requires Cleans(ts) && n > 0
    ensures Decode(FlatFront(ts) + Zeros(n)) == ts
    decreases |ts|
  {
    hide Decode, Zeros, StrLen;
    var s := FlatFront(ts) + Zeros(n);
    DecodeStep(s);
    if ts == [] {
      assert s == Zeros(n) && s[0] == NUL;
    } else {
      var t, rest := ts[0], FlatFront(ts[1..]) + Zeros(n);
      assert t in ts;
      hide FlatFront, Cleans;
      FrontStep(ts, Zeros(n));
      assert s[0] == t[0] && s[|t|] == NUL;
      assert s[..|t|] == t && s[|t| + 1..] == rest;
      StrLenIs(t, s);
      CleanTail(ts);
      DecodeFlat(ts[1..], n);
      assert ts == [t] + ts[1..];
    }
  }

  lemma FrontStep(ts: seq<string>, z: string)
    requires ts != []
    ensures FlatFront(ts) + z == ts[0] + [NUL] + (FlatFront(ts[1..]) + z)
  {
  }

  lemma CleanTail(ts: seq<string>)
    requires Cleans(ts) && ts != []
    ensures Cleans(ts[1..])
  {
  }

  lemma DecodeStep(s: string)
    ensures Decode(s) ==
            if s == [] || s[0] == NUL || StrLen(s) == |s| then []
            else [s[..StrLen(s)]] + Decode(s[StrLen(s) + 1..])
  {
    hide StrLen;
  }

  /** The scan of `tokenize_path`: the closed tokens and the open one, one character further. */
  function Scan(ts: seq<string>, open: string, p: string): seq<string>
    decreases |p|
  {
    if p == [] then if open == [] then ts else ts + [open]
    else if p[0] != SLASH then Scan(ts, open + [p[0]], p[1..])
    else if open != [] then Scan(ts + [open], [], p[1..])
    else Scan(ts, [], p[1..])
  }

  lemma {:induction false} ScanTokens(ts: seq<string>, open: string, p: string)
    ensures Scan(ts, open, p) ==
            if open == [] then ts + Tokens(p) else ts + [open + p[..ElementSize(p)]] + Tokens(p[ElementSize(p)..])
    decreases |p|
  {
    var n := ElementSize(p);
    if p == [] {
      assert open + p[..n] == open && p[n..] == [];
      assert ts + [] == ts && ts + [open] + [] == ts + [open];
    } else if p[0] != SLASH {
      var q := p[1..];
      ScanTokens(ts, open + [p[0]], q);
      assert p[..n] == [p[0]] + q[..ElementSize(q)] && p[n..] == q[ElementSize(q)..];
      assert Tokens(p) == [p[..n]] + Tokens(p[n..]);
      hide Scan, Tokens;
      assert open + [p[0]] + q[..ElementSize(q)] == open + p[..n];
      assert ts + ([p[..n]] + Tokens(p[n..])) == ts + [p[..n]] + Tokens(p[n..]);
      if open == [] { assert open + p[..n] == p[..n]; }
    } else {
      var closed := if open == [] then ts else ts + [open];
      ScanTokens(closed, [], p[1..]);
      assert p[..n] == [] && open + p[..n] == open && p[n..] == p;
    }
  }

  /** `tokenize_path`: the buffer holds the components of the path, each closed by a NUL, and NULs after
  them. */
  method TokenizePath(path: string) returns (s: array<char>)
    requires CString(path)
    ensures fresh(s) && s.Length == |path| + 2 && s[|path|] == NUL && s[|path| + 1] == NUL
    ensures Layout(s[..], Tokens(path)) && Decode(s[..]) == Tokens(path)
  {
    hide Scan, Flat, Tokens, Decode, Zeros;
    s := new char[|path| + 2];
    var i, j := 0, 0;
    ghost var ts: seq<string>, open: string := [], [];
    ScanStart(path, s[..0]);
    while i < |path|
      invariant i <= |path| && j <= i && s[..j] == Flat(ts) + open && Cleans(ts) && CString(open)
      invariant Scan(ts, open, path[i..]) == Tokens(path)
    {
      ScanNext(ts, open, path, i);
      FlatEnds(ts, open, s[..j]);
      if path[i] == SLASH {
        if j != 0 && s[j - 1] != NUL {
          s[j] := NUL;
          j := j + 1;
          FlatClose(ts, open);
          ts, open := ts + [open], [];
        }
        i := i + 1;
      } else {
        s[j] := path[i];
        j := j + 1;
        open := open + [path[i]];
        i := i + 1;
      }
    }
    ghost var k := j;
    while j < |path| + 2
      invariant k <= j <= |path| + 2
      invariant s[..k] == Flat(ts) + open && forall m | k <= m < j :: s[m] == NUL
    {
      s[j] := NUL;
      j := j + 1;
    }
    Finish(ts, open, path, k, s[..]);
  }

  /** The tokens, each closed by a NUL, and at least one more NUL. */
  ghost predicate Layout(s: string, ts: seq<string>) {
    exists n: nat :: n > 0 && s == Flat(ts) + Zeros(n)
  }

  lemma ScanStart(path: string, s: string)
    requires s == []
    ensures s == Flat([]) + [] && Scan([], [], path[0..]) == Tokens(path)
  {
    assert path[0..] == path;
    ScanTokens([], [], path);
  }

  lemma ScanNext(ts: seq<string>, open: string, path: string, i: nat)
    requires i < |path|
    ensures Scan(ts, open, path[i..]) ==
            if path[i] != SLASH then Scan(ts, open + [path[i]], path[i + 1..])
            else if open != [] then Scan(ts + [open], [], path[i + 1..])
            else Scan(ts, [], path[i + 1..])
  {
    assert path[i..][0] == path[i] && path[i..][1..] == path[i + 1..];
  }

  lemma FlatEnds(ts: seq<string>, open: string, s: string)
    requires s == Flat(ts) + open && CString(open)
    ensures open != [] <==> s != [] && s[|s| - 1] != NUL
  {
    if open != [] { assert s[|s| - 1] == open[|open| - 1]; }
  }

  lemma FlatClose(ts: seq<string>, open: string)
    ensures Flat(ts + [open]) == Flat(ts) + open + [NUL]
  {
    assert (ts + [open])[..|ts|] == ts;
  }

  lemma Finish(ts: seq<string>, open: string, path: string, k: nat, s: string)
    requires Cleans(ts) && CString(open) && k <= |path| && |s| == |path| + 2
    requires s[..k] == Flat(ts) + open && (forall m | k <= m < |s| :: s[m] == NUL)
    requires Scan(ts, open, path[|path|..]) == Tokens(path)
    ensures Layout(s, Tokens(path)) && Decode(s) == Tokens(path)
  {
    hide Tokens, Scan, Flat, FlatFront, Decode, StrLen, Zeros;
    assert path[|path|..] == [];
    ScanEnd(ts, open);
    var all := if open == [] then ts else ts + [open];
    assert all == Tokens(path);
    var n := if open == [] then |s| - k else |s| - k - 1;
    if open == [] {
      assert s == s[..k] + Zeros(n);
    } else {
      FlatClose(ts, open);
      assert s == s[..k] + [NUL] + Zeros(n);
    }
    assert s == Flat(all) + Zeros(n);
    FlatIsFront(all);
    DecodeFlat(all, n);
  }

  lemma ScanEnd(ts: seq<string>, open: string)
    ensures Scan(ts, open, []) == if open == [] then ts else ts + [open]
  {
  }
}
