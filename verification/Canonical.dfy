/** Canonical paths (kernel/fs.c): the components of a path, with "." and ".." resolved. */
module Canonical {
  import opened Lists
  import opened Outcomes
  import opened Paths

  /** One token: ".." takes the last element away, and stops when there is none. */
  function PushToken(es: seq<string>, t: string): Outcome<seq<string>> {
    if t == ".." then if es == [] then Stopped else Done(es[..|es| - 1])
    else if t == "." then Done(es)
    else Done(es + [t])
  }

  function Push(es: seq<string>, ts: seq<string>): Outcome<seq<string>>
    decreases |ts|
  {
    if ts == [] then Done(es)
    else
      match PushToken(es, ts[0])
      case Done(more) => Push(more, ts[1..])
      case Stopped => Stopped
  }

  /** `canonicalize_path_list`, as a function of its two paths. */
  function Canonicalize(parent: string, relative: string): Outcome<seq<string>> {
    Push(if relative != [] && relative[0] != SLASH then Tokens(parent) else [], Tokens(relative))
  }

  // ----- the functions on lists and buffers -----

  /** `strlen` of the string at place `pos` of a buffer. */
  method CStrLen(s: array<char>, pos: nat) returns (n: nat)
    requires pos < s.Length && s[s.Length - 1] == NUL
    ensures n == StrLen(s[pos..]) && pos + n < s.Length && s[pos + n] == NUL
  {
    n := 0;
    while s[pos + n] != NUL
      invariant pos + n < s.Length && StrLen(s[pos..]) == n + StrLen(s[pos + n..])
      decreases s.Length - n
    {
      assert s[pos + n..][1..] == s[pos + n + 1..];
      n := n + 1;
    }
  }

  lemma {:induction false} StrLenEnds(s: string)
    requires s != [] && s[|s| - 1] == NUL
    ensures StrLen(s) < |s|
  {
    if s[0] != NUL { StrLenEnds(s[1..]); }
  }

  /** The buffer from `pos` on starts with the token `t`, if it has one. */
  lemma DecodeNext(s: string, pos: nat)
    requires pos < |s| && s[|s| - 1] == NUL && s[pos] != NUL
    ensures var n := StrLen(s[pos..]);
            && 0 < n && pos + n < |s| && s[pos + n] == NUL
            && Decode(s[pos..]) == [s[pos..pos + n]] + Decode(s[pos + n + 1..])
  {
    hide Decode, StrLen;
    var p := s[pos..];
    var n := StrLen(p);
    StrLenEnds(p);
    DecodeStep(p);
    assert p[n] == s[pos + n] && p[0] == s[pos];
    assert p[..n] == s[pos..pos + n];
    assert p[n + 1..] == s[pos + n + 1..];
  }

  /** `memcmp` with "..", three bytes of it, and with ".", two: the terminators are compared, too. */
  lemma DotsExactly(s: string, pos: nat)
    requires pos + 2 < |s| && StrLen(s[pos..]) > 0 && pos + StrLen(s[pos..]) < |s|
    ensures var t := s[pos..pos + StrLen(s[pos..])];
            && (t == ".." <==> s[pos..pos + 3] == "..\0")
            && (t == "." <==> s[pos..pos + 2] == ".\0")
  {
    var p := s[pos..];
    var n := StrLen(p);
    assert s[pos..pos + n] == p[..n] && s[pos..pos + 3] == p[..3] && s[pos..pos + 2] == p[..2];
    assert p[n] == NUL;
    if p[..3] == "..\0" { assert p[0] == '.' && p[1] == '.' && p[2] == NUL; }
    if p[..2] == ".\0" { assert p[0] == '.' && p[1] == NUL; }
  }

  /** `canonicalize_path_push_path`; false is the failed assertion of a ".." with nothing to remove.
  The nodes that it allocates are numbered from `supply` on. */
  method PushPath(path: string, elements: List<string>, supply: Node) returns (ok: bool)
    requires CString(path) && elements.Valid() && supply > 0 && (forall n | n in elements.nodes :: n < supply)
    modifies elements
    ensures elements.Valid()
    ensures match Push(old(elements.Contents()), Tokens(path))
            case Done(es) => ok && elements.Contents() == es
            case Stopped => !ok
  {
    hide List.Valid, List.Contents, Tokens, Decode, Layout, StrLen, PushToken, Push;
    var s := TokenizePath(path);
    ghost var buf := s[..];
    var pos := 0;
    assert buf[0..] == buf;
    while s[pos] != NUL
      invariant s[..] == buf && pos <= |path| + 1 && elements.Valid()
      invariant forall n | n in elements.nodes :: n < supply + pos
      invariant Push(elements.Contents(), Decode(buf[pos..])) == Push(old(elements.Contents()), Tokens(path))
      decreases s.Length - pos
    {
      var j := CStrLen(s, pos);
      assert s[pos..] == buf[pos..];
      TokenFits(buf, pos, |path|);
      DecodeNext(buf, pos);
      DotsExactly(buf, pos);
      ghost var t := buf[pos..pos + j];
      PushFirst(elements.Contents(), t, Decode(buf[pos + j + 1..]));
      ok := PushOne(s[pos..pos + 3], s[pos..pos + j], elements, supply + pos);
      if !ok {
        return;
      }
      pos := pos + j + 1;
    }
    DecodeEmpty(buf[pos..]);
    PushNone(elements.Contents());
    return true;
  }

  lemma PushNone(es: seq<string>)
    ensures Push(es, []) == Done(es)
  {
  }

  /** The body of the loop, on one token and the three bytes that the comparisons look at. */
  method PushOne(bytes: string, t: string, elements: List<string>, node: Node) returns (ok: bool)
    requires elements.Valid() && node > 0 && (forall n | n in elements.nodes :: n < node) && |bytes| == 3
    requires (t == ".." <==> bytes == "..\0") && (t == "." <==> bytes[..2] == ".\0")
    modifies elements
    ensures elements.Valid() && forall n | n in elements.nodes :: n <= node
    ensures match PushToken(old(elements.Contents()), t)
            case Done(es) => ok && elements.Contents() == es
            case Stopped => !ok
  {
    hide List.Valid, List.Contents;
    TailOf(elements);
    if bytes == "..\0" {
      if elements.tail == 0 {
        return false;
      }
      ghost var ns := elements.nodes;
      WithoutLast(ns, elements.Contents());
      elements.Delete(elements.tail, elements.length - 1);
      forall n | n in elements.nodes
        ensures n <= node
      {
        assert n in Without(ns, |ns| - 1);
        assert n in ns;
      }
    } else if bytes[..2] == ".\0" {
    } else {
      elements.Insert(t, node);
    }
    return true;
  }

  lemma WithoutLast(ns: seq<Node>, es: seq<string>)
    ensures es != [] ==> es[..|es| - 1] + es[|es| - 1 + 1..] == es[..|es| - 1]
    ensures ns != [] ==> forall n | n in Without(ns, |ns| - 1) :: n in ns
  {
    if ns != [] { assert Without(ns, |ns| - 1) == ns[..|ns| - 1]; }
  }

  lemma TokenFits(s: string, pos: nat, end: nat)
    requires pos <= end + 1 && end + 2 == |s| && s[end] == NUL && s[end + 1] == NUL && s[pos] != NUL
    ensures 0 < StrLen(s[pos..]) && pos + StrLen(s[pos..]) + 1 <= end + 1 && pos + 2 < |s|
  {
    assert s[pos..][end - pos] == NUL;
  }

  lemma DecodeEmpty(s: string)
    requires s != [] && s[0] == NUL
    ensures Decode(s) == []
  {
  }

  lemma PushFirst(es: seq<string>, t: string, ts: seq<string>)
    ensures Push(es, [t] + ts) ==
            match PushToken(es, t) case Done(more) => Push(more, ts) case Stopped => Stopped
  {
    assert ([t] + ts)[1..] == ts;
  }

  lemma TailOf(l: List<string>)
    requires l.Valid()
    ensures l.tail == 0 <==> l.Contents() == []
    ensures l.length == |l.nodes| == |l.Contents()|
    ensures l.Contents() != [] ==> l.tail == l.nodes[|l.nodes| - 1]
  {
    if l.nodes != [] { assert l.nodes[|l.nodes| - 1] in l.nodes; }
  }

  /** The loop over the parent's tokens, which are taken as they are. */
  method TakeParent(parent: string, elements: List<string>)
    requires CString(parent) && elements.Valid() && elements.Contents() == [] && elements.nodes == []
    modifies elements
    ensures elements.Valid() && elements.Contents() == Tokens(parent)
    ensures forall n | n in elements.nodes :: n < 1 + |parent| + 2
  {
    hide List.Valid, List.Contents, Tokens, Decode, Layout, StrLen;
    var s := TokenizePath(parent);
    ghost var buf := s[..];
    var pos := 0;
    assert buf[0..] == buf;
    while s[pos] != NUL
      invariant s[..] == buf && pos <= |parent| + 1 && elements.Valid()
      invariant forall n | n in elements.nodes :: n < 1 + pos
      invariant elements.Contents() + Decode(buf[pos..]) == Tokens(parent)
      decreases s.Length - pos
    {
      var j := CStrLen(s, pos);
      assert s[pos..] == buf[pos..];
      TokenFits(buf, pos, |parent|);
      DecodeNext(buf, pos);
      ghost var c, rest := elements.Contents(), Decode(buf[pos + j + 1..]);
      elements.Insert(s[pos..pos + j], 1 + pos);
      assert c + [buf[pos..pos + j]] + rest == c + ([buf[pos..pos + j]] + rest);
      pos := pos + j + 1;
    }
    DecodeEmpty(buf[pos..]);
  }

  /** `canonicalize_path_list`: the parent's tokens are taken as they are, the relative path is resolved. */
  method CanonicalizePathList(parent: string, relative: string) returns (ok: bool, elements: List<string>)
    requires CString(parent) && CString(relative)
    ensures fresh(elements) && elements.Valid()
    ensures match Canonicalize(parent, relative)
            case Done(es) => ok && elements.Contents() == es
            case Stopped => !ok
  {
    hide List.Valid, List.Contents, Tokens, Push;
    elements := new List();
    if |relative| > 0 && relative[0] != SLASH {
      TakeParent(parent, elements);
    }
    ok := PushPath(relative, elements, 1 + |parent| + 2);
  }

  // ----- laws -----

  lemma {:induction false} PushConcat(es: seq<string>, a: seq<string>, b: seq<string>)
    ensures Push(es, a + b) == match Push(es, a) case Done(more) => Push(more, b) case Stopped => Stopped
    decreases |a|
  {
    if a == [] {
      assert a + b == b;
    } else {
      assert (a + b)[0] == a[0] && (a + b)[1..] == a[1..] + b;
      if PushToken(es, a[0]).Done? { PushConcat(PushToken(es, a[0]).value, a[1..], b); }
    }
  }

  lemma {:induction false} TokensSlash(p: string, q: string)
    ensures Tokens(p + [SLASH] + q) == Tokens(p) + Tokens(q)
    decreases |p|
  {
    hide Tokens, ElementSize;
    var pq := p + [SLASH] + q;
    TokensStep(pq);
    if p == [] {
      assert pq[0] == SLASH && pq[1..] == q;
      NoTokens();
    } else {
      TokensStep(p);
      if p[0] == SLASH {
        assert pq[1..] == p[1..] + [SLASH] + q;
        TokensSlash(p[1..], q);
      } else {
        var n := ElementSize(p);
        SizeSlash(p, q);
        assert pq[..n] == p[..n] && pq[n..] == p[n..] + [SLASH] + q;
        TokensSlash(p[n..], q);
        assert [p[..n]] + (Tokens(p[n..]) + Tokens(q)) == [p[..n]] + Tokens(p[n..]) + Tokens(q);
      }
    }
  }

  lemma NoTokens()
    ensures Tokens([]) == []
  {
  }

  lemma {:induction false} SizeSlash(p: string, q: string)
    ensures ElementSize(p + [SLASH] + q) == ElementSize(p)
    decreases |p|
  {
    if p != [] && p[0] != SLASH {
      assert (p + [SLASH] + q)[1..] == p[1..] + [SLASH] + q;
      SizeSlash(p[1..], q);
    }
  }

  /** Pushing "p/q" is pushing p and then q, wherever the slash is. */
  lemma PushJoined(es: seq<string>, p: string, q: string)
    ensures Push(es, Tokens(p + [SLASH] + q)) ==
            match Push(es, Tokens(p)) case Done(more) => Push(more, Tokens(q)) case Stopped => Stopped
  {
    TokensSlash(p, q);
    PushConcat(es, Tokens(p), Tokens(q));
  }

  /** A proper name: no empty, "." or ".." component, no slash. */
  predicate Name(t: string) {
    t != [] && t != "." && t != ".." && SLASH !in t && CString(t)
  }

  predicate IsCanonical(es: seq<string>) {
    forall t | t in es :: Name(t)
  }

  lemma {:induction false} PushCanonical(es: seq<string>, ts: seq<string>)
    requires IsCanonical(es) && (forall t | t in ts :: t != [] && SLASH !in t && CString(t)) && Push(es, ts).Done?
    ensures IsCanonical(Push(es, ts).value)
    decreases |ts|
  {
    if ts != [] {
      assert ts[0] in ts;
      PushCanonical(PushToken(es, ts[0]).value, ts[1..]);
    }
  }

  /** The canonical list of a path below a canonical parent has no ".", ".." or empty element. */
  lemma CanonicalizeIsCanonical(parent: string, relative: string)
    requires CString(parent) && CString(relative) && IsCanonical(Tokens(parent))
    requires Canonicalize(parent, relative).Done?
    ensures IsCanonical(Canonicalize(parent, relative).value)
  {
    TokensClean(relative);
    PushCanonical(if relative != [] && relative[0] != SLASH then Tokens(parent) else [], Tokens(relative));
  }

  /** An absolute path does not depend on the parent, and neither does an empty one: that is the root. */
  lemma ParentIgnored(parent: string, other: string, relative: string)
    requires relative == [] || relative[0] == SLASH
    ensures Canonicalize(parent, relative) == Canonicalize(other, relative)
    ensures relative == [] ==> Canonicalize(parent, relative) == Done([])
  {
    NoTokens();
  }

  /** A list of elements written as an absolute path. */
  function Join(es: seq<string>): string {
    if es == [] then [SLASH] else [SLASH] + es[0] + if |es| == 1 then [] else Join(es[1..])
  }

  lemma {:induction false} TokensJoin(es: seq<string>)
    requires IsCanonical(es)
    ensures Tokens(Join(es)) == es
    decreases |es|
  {
    if es == [] {
      assert Join(es)[1..] == [];
    } else {
      assert es[0] in es;
      TokensJoin(es[1..]);
      TokensElement(es[0], if |es| == 1 then [] else Join(es[1..]));
      assert es == [es[0]] + es[1..];
    }
  }

  lemma TokensElement(t: string, rest: string)
    requires Name(t) && (rest == [] || rest[0] == SLASH)
    ensures Tokens([SLASH] + t + rest) == [t] + Tokens(rest)
  {
    var p, q := [SLASH] + t + rest, t + rest;
    assert p[1..] == q && q[0] == t[0];
    SizeName(t, rest);
    assert q[..|t|] == t && q[|t|..] == rest;
  }

  lemma {:induction false} SizeName(t: string, rest: string)
    requires SLASH !in t && (rest == [] || rest[0] == SLASH)
    ensures ElementSize(t + rest) == |t|
  {
    if t == [] {
      assert t + rest == rest;
    } else {
      assert (t + rest)[1..] == t[1..] + rest;
      SizeName(t[1..], rest);
    }
  }

  lemma {:induction false} PushNames(es: seq<string>, ts: seq<string>)
    requires IsCanonical(ts)
    ensures Push(es, ts) == Done(es + ts)
    decreases |ts|
  {
    if ts == [] {
      assert es + ts == es;
    } else {
      assert ts[0] in ts;
      PushNames(es + [ts[0]], ts[1..]);
      assert es + [ts[0]] + ts[1..] == es + ts;
    }
  }

  /** A canonical result is a fixed point: written as a path and canonicalized again, from anywhere, it
  is the same list. */
  lemma FixedPoint(parent: string, relative: string, cwd: string)
    requires CString(parent) && CString(relative) && IsCanonical(Tokens(parent))
    requires Canonicalize(parent, relative).Done?
    ensures Canonicalize(cwd, Join(Canonicalize(parent, relative).value)) == Canonicalize(parent, relative)
  {
    var es := Canonicalize(parent, relative).value;
    CanonicalizeIsCanonical(parent, relative);
    TokensJoin(es);
    PushNames([], es);
    assert [] + es == es;
    assert Join(es)[0] == SLASH;
  }

  /** What each kind of component does, and with these any path resolves: a name is added, "." does nothing,
      and ".." takes the last element away, so that a name and ".." cancel. */
  lemma PushLaws(es: seq<string>, t: string)
    ensures t != "." && t != ".." ==> Push(es, [t]) == Done(es + [t])
    ensures Push(es, ["."]) == Done(es)
    ensures t != "." && t != ".." ==> Push(es, [t, ".."]) == Done(es)
    ensures Push(es + [t], [".."]) == Done(es) && Push([], [".."]) == Stopped
  {
    PushFirst(es, t, [".."]);
    PushFirst(es, t, []);
    PushFirst(es, ".", []);
    PushFirst(es + [t], "..", []);
    PushFirst(es + [t], "..", [".."]);
    PushFirst([], "..", []);
    assert (es + [t])[..|es|] == es;
    assert [t, ".."] == [t] + [".."] && [t] + [] == [t] && ["."] + [] == ["."] && [".."] + [] == [".."];
  }

  /** Appending "/t/.." to a path changes nothing, whatever it resolves to. */
  lemma UpUndoesName(parent: string, relative: string, t: string)
    requires Name(t)
    ensures Canonicalize(parent, relative + [SLASH] + t + [SLASH] + "..") == Canonicalize(parent, relative)
  {
    hide Tokens;
    var below := if relative != [] && relative[0] != SLASH then Tokens(parent) else [];
    var longer := relative + [SLASH] + t + [SLASH] + "..";
    var down := [SLASH] + t;
    assert longer == relative + [SLASH] + (t + [SLASH] + "..");
    assert relative != [] ==> longer[0] == relative[0];
    PushJoined(below, relative, t + [SLASH] + "..");
    TokensSlash(t, "..");
    OneName(t);
    OneName("..");
    if Push(below, Tokens(relative)).Done? { PushLaws(Push(below, Tokens(relative)).value, t); }
    assert [t] + [".."] == [t, ".."];
    if relative == [] { NoTokens(); }
  }

  lemma OneName(t: string)
    requires t != [] && SLASH !in t
    ensures Tokens(t) == [t]
  {
    SizeName(t, []);
    assert t + [] == t && t[..|t|] == t && t[|t|..] == [];
    TokensStep(t);
    NoTokens();
  }

  /** A relative path of plain names gives the parent's elements followed by them. */
  lemma NamesFollowParent(parent: string, relative: string)
    requires relative != [] && relative[0] != SLASH && IsCanonical(Tokens(relative))
    ensures Canonicalize(parent, relative) == Done(Tokens(parent) + Tokens(relative))
  {
    PushNames(Tokens(parent), Tokens(relative));
  }

  function Ups(ts: seq<string>): nat {
    if ts == [] then 0 else (if ts[0] == ".." then 1 else 0) + Ups(ts[1..])
  }

  function Downs(ts: seq<string>): nat {
    if ts == [] then 0 else (if ts[0] == ".." || ts[0] == "." then 0 else 1) + Downs(ts[1..])
  }

  /** Some beginning of the path goes up more often than there are elements to leave. */
  ghost predicate Underflows(n: nat, ts: seq<string>) {
    exists k | 0 <= k <= |ts| :: Ups(ts[..k]) > n + Downs(ts[..k])
  }

  /** Exactly the paths that climb above the root at some point fail the assertion. */
  lemma {:induction false} StopsExactly(es: seq<string>, ts: seq<string>)
    ensures Push(es, ts).Stopped? <==> Underflows(|es|, ts)
    decreases |ts|
  {
    if ts == [] {
      assert ts[..0] == [];
    } else {
      var r := PushToken(es, ts[0]);
      if r.Done? {
        StopsExactly(r.value, ts[1..]);
        UnderflowStep(|es|, ts, |r.value|);
      } else {
        FirstToken(ts, 1);
        assert ts[1..][..0] == [];
        assert Ups(ts[..1]) > |es| + Downs(ts[..1]);
      }
    }
  }

  lemma FirstToken(ts: seq<string>, k: nat)
    requires 1 <= k <= |ts|
    ensures Ups(ts[..k]) == (if ts[0] == ".." then 1 else 0) + Ups(ts[1..][..k - 1])
    ensures Downs(ts[..k]) == (if ts[0] == ".." || ts[0] == "." then 0 else 1) + Downs(ts[1..][..k - 1])
  {
    assert ts[..k][1..] == ts[1..][..k - 1];
  }

  lemma UnderflowStep(n: nat, ts: seq<string>, m: nat)
    requires ts != []
    requires n + (if ts[0] == ".." || ts[0] == "." then 0 else 1) == m + if ts[0] == ".." then 1 else 0
    ensures Underflows(n, ts) <==> Underflows(m, ts[1..])
  {
    if Underflows(n, ts) {
      var k :| 0 <= k <= |ts| && Ups(ts[..k]) > n + Downs(ts[..k]);
      assert k > 0 by { assert ts[..0] == []; }
      FirstToken(ts, k);
      var j := k - 1;
      assert Ups(ts[1..][..j]) > m + Downs(ts[1..][..j]);
    }
    if Underflows(m, ts[1..]) {
      var k :| 0 <= k <= |ts[1..]| && Ups(ts[1..][..k]) > m + Downs(ts[1..][..k]);
      var j := k + 1;
      FirstToken(ts, j);
      assert Ups(ts[..j]) > n + Downs(ts[..j]);
    }
  }
}
