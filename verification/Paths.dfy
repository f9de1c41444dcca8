/** Paths: the in-place tokenizer against the non-empty pieces between slashes. */
module Paths {
  // ---- tokens of a string ----

  /** The length of the leading run without a slash. */
  function Word(s: string): (n: nat)
    ensures n <= |s| && '/' !in s[..n] && (n < |s| ==> s[n] == '/')
  {
    if s == "" || s[0] == '/' then 0 else 1 + Word(s[1..])
  }

  function Tokens(s: string): seq<string> {
    if s == "" then []
    else if s[0] == '/' then Tokens(s[1..])
    else [s[..Word(s)]] + Tokens(s[Word(s)..])
  }

  /** The pieces between slashes, empty ones included. */
  function Pieces(s: string): (p: seq<string>)
    ensures p != []
  {
    if s == "" then [""]
    else if s[0] == '/' then [""] + Pieces(s[1..])
    else [[s[0]] + Pieces(s[1..])[0]] + Pieces(s[1..])[1..]
  }

  function NonEmpty(p: seq<string>): seq<string> {
    if p == [] then [] else (if p[0] == "" then [] else [p[0]]) + NonEmpty(p[1..])
  }

  lemma WordIs(s: string, n: nat)
    requires n <= |s| && '/' !in s[..n] && (n < |s| ==> s[n] == '/')
    ensures Word(s) == n
  {
  }

  /** A character before a slash or the end is a token; before another it joins the
      first token of the rest. */
  lemma TokensStep(s: string)
    requires s != "" && s[0] != '/'
    ensures |s| == 1 || s[1] == '/' ==> Tokens(s) == [s[..1]] + Tokens(s[1..])
    ensures |s| > 1 && s[1] != '/' ==>
              Tokens(s[1..]) != [] && Tokens(s) == [s[..1] + Tokens(s[1..])[0]] + Tokens(s[1..])[1..]
  {
    hide Word, Tokens;
    WordCons(s);
    TokensWord(s);
    var n := Word(s[1..]);
    if |s| > 1 && s[1] != '/' {
      TokensJoin(s, s[1..], n);
      assert Tokens(s) == [s[..1 + n]] + Tokens(s[1 + n..]);
    } else {
      assert Word(s) == 1;
    }
  }

  lemma TokensJoin(s: string, u: string, n: nat)
    requires s != "" && u == s[1..] && u != "" && u[0] != '/' && n == Word(u)
    ensures Tokens(u) != [] && [s[..1] + Tokens(u)[0]] + Tokens(u)[1..] == [s[..1 + n]] + Tokens(s[1 + n..])
  {
    hide Word, Tokens;
    TokensWord(u);
    assert s[..1 + n] == s[..1] + u[..n] && s[1 + n..] == u[n..];
  }

  lemma WordCons(s: string)
    requires s != "" && s[0] != '/'
    ensures Word(s) == 1 + Word(s[1..])
    ensures Word(s[1..]) == 0 <==> |s| == 1 || s[1] == '/'
  {
  }

  lemma TokensWord(s: string)
    ensures s != "" && s[0] != '/' ==> Tokens(s) == [s[..Word(s)]] + Tokens(s[Word(s)..])
  {
  }

  lemma {:induction false} TokensArePieces(s: string)
    ensures Tokens(s) == NonEmpty(Pieces(s))
    ensures s != "" && s[0] != '/' <==> Pieces(s)[0] != ""
  {
    if s != "" {
      TokensArePieces(s[1..]);
      if s[0] != '/' {
        TokensStep(s);
        var p := Pieces(s[1..]);
        assert s[..1] == [s[0]];
        assert Pieces(s)[1..] == p[1..];
        assert Pieces(s)[0] == s[..1] + p[0];
        assert NonEmpty(Pieces(s)) == [s[..1] + p[0]] + NonEmpty(p[1..]);
        if p[0] == "" {
          assert Tokens(s[1..]) == NonEmpty(p[1..]) && s[..1] + p[0] == s[..1];
          assert |s| == 1 || s[1] == '/' by {
            assert |s| > 1 ==> s[1..][0] == s[1];
          }
        } else {
          assert s[1..][0] == s[1] != '/';
          assert Tokens(s[1..]) == [p[0]] + NonEmpty(p[1..]);
        }
      } else {
        assert Pieces(s)[1..] == Pieces(s[1..]);
      }
    }
  }

  /** A slash separates: nothing before it joins anything after it. */
  lemma {:induction false} SlashSeparates(a: string, b: string)
    ensures Tokens(a + "/" + b) == Tokens(a) + Tokens(b)
    decreases |a|
  {
    var s := a + "/" + b;
    if a == "" {
      assert s[1..] == b;
    } else if a[0] == '/' {
      assert s[1..] == a[1..] + "/" + b;
      SlashSeparates(a[1..], b);
    } else {
      var n := Word(a);
      assert s[..n] == a[..n] && s[n..] == a[n..] + "/" + b;
      WordIs(s, n);
      SlashSeparates(a[n..], b);
      assert [a[..n]] + (Tokens(a[n..]) + Tokens(b)) == [a[..n]] + Tokens(a[n..]) + Tokens(b);
    }
  }

  function Slashes(n: nat): string {
    seq(n, i => '/')
  }

  lemma {:induction false} LeadingSlashes(n: nat, b: string)
    ensures Tokens(Slashes(n) + b) == Tokens(b)
    decreases n
  {
    if n == 0 {
      assert Slashes(0) + b == b;
    } else {
      assert (Slashes(n) + b)[1..] == Slashes(n - 1) + b;
      LeadingSlashes(n - 1, b);
    }
  }

  /** A run of slashes of any length separates like one; at either end it does nothing. */
  lemma {:induction false} ExtraSlashes(a: string, n: nat, b: string)
    ensures Tokens(a + Slashes(n + 1) + b) == Tokens(a + "/" + b)
    ensures Tokens(Slashes(n) + b) == Tokens(b)
    ensures Tokens(a + Slashes(n)) == Tokens(a)
  {
    hide Tokens;
    LeadingSlashes(n, b);
    assert a + Slashes(n + 1) + b == a + "/" + (Slashes(n) + b);
    SlashSeparates(a, Slashes(n) + b);
    SlashSeparates(a, b);
    TrailingSlashes(a, n);
  }

  lemma TrailingSlashes(a: string, n: nat)
    ensures Tokens(a + Slashes(n)) == Tokens(a)
  {
    if n == 0 {
      assert a + Slashes(n) == a;
    } else {
      assert a + Slashes(n) == a + "/" + Slashes(n - 1);
      SlashSeparates(a, Slashes(n - 1));
      LeadingSlashes(n - 1, "");
      assert Slashes(n - 1) + "" == Slashes(n - 1);
    }
  }

  /** A name that a path can spell. */
  predicate Component(t: string) {
    t != "" && '/' !in t
  }

  function Spelled(ts: seq<string>): string {
    if ts == [] then "" else "/" + ts[0] + Spelled(ts[1..])
  }

  lemma {:induction false} SpelledTokens(ts: seq<string>)
    requires forall t :: t in ts ==> Component(t)
    ensures Tokens(Spelled(ts)) == ts
  {
    if ts != [] {
      hide Word;
      var t, rest := ts[0], Spelled(ts[1..]);
      assert t in ts;
      SpelledTokens(ts[1..]);
      assert rest != "" ==> rest[0] == '/';
      assert Spelled(ts)[1..] == t + rest;
      assert (t + rest)[..|t|] == t && (t + rest)[|t|..] == rest;
      WordIs(t + rest, |t|);
    }
  }

  lemma {:induction false} TokensAreComponents(s: string)
    ensures forall t :: t in Tokens(s) ==> Component(t)
    decreases |s|
  {
    if s != "" {
      if s[0] == '/' {
        TokensAreComponents(s[1..]);
      } else {
        TokensAreComponents(s[Word(s)..]);
      }
    }
  }

  /** A string without a slash is its own only token. */
  lemma OneToken(t: string)
    requires '/' !in t
    ensures Tokens(t) == if t == "" then [] else [t]
  {
    WordIs(t, |t|);
    assert t[..|t|] == t && t[|t|..] == "";
  }

  // ---- the last slash ----

  function LastSlash(s: string): (r: int)
    ensures -1 <= r < |s|
    ensures 0 <= r ==> s[r] == '/'
    ensures forall k :: r < k < |s| ==> s[k] != '/'
  {
    if s == "" then -1 else if s[|s| - 1] == '/' then |s| - 1 else LastSlash(s[..|s| - 1])
  }

  function Parent(s: string): string
    requires LastSlash(s) >= 0
  {
    if LastSlash(s) == 0 then "/" else s[..LastSlash(s)]
  }

  function Leaf(s: string): string
    requires LastSlash(s) >= 0
  {
    s[LastSlash(s) + 1..]
  }

  /** Cutting a path at its last slash cuts its last token off, if it ends in one. */
  lemma ParentAndLeaf(s: string)
    requires LastSlash(s) >= 0
    ensures '/' !in Leaf(s)
    ensures Tokens(s) == Tokens(Parent(s)) + if Leaf(s) == "" then [] else [Leaf(s)]
  {
    hide Tokens, LastSlash;
    var i := LastSlash(s);
    assert s == s[..i] + "/" + Leaf(s);
    SlashSeparates(s[..i], Leaf(s));
    OneToken(Leaf(s));
    RootTokens();
    if i == 0 {
      assert s[..i] == "";
    }
  }

  lemma RootTokens()
    ensures Tokens("/") == Tokens("") == []
  {
    assert "/"[1..] == "";
  }

  // ---- the tokenizer in place ----

  predicate Terminated(buf: seq<char>) {
    buf != [] && buf[|buf| - 1] == '\0'
  }

  /** The string that starts at `p`. */
  function CString(buf: seq<char>, p: nat): string
    requires Terminated(buf) && p < |buf|
    decreases |buf| - p
  {
    if buf[p] == '\0' then "" else [buf[p]] + CString(buf, p + 1)
  }

  lemma {:induction false} CStringRun(buf: seq<char>, p: nat, q: nat)
    requires Terminated(buf) && p <= q < |buf| && '\0' !in buf[p..q]
    ensures CString(buf, p) == buf[p..q] + CString(buf, q)
    decreases q - p
  {
    if p < q {
      assert buf[p] == buf[p..q][0];
      assert buf[p..q] == [buf[p]] + buf[p + 1..q];
      CStringRun(buf, p + 1, q);
    }
  }

  lemma {:induction false} CStringLocal(buf: seq<char>, buf': seq<char>, p: nat)
    requires Terminated(buf) && Terminated(buf') && |buf| == |buf'| && p < |buf|
    requires buf[p..] == buf'[p..]
    ensures CString(buf, p) == CString(buf', p)
    decreases |buf| - p
  {
    assert buf[p] == buf[p..][0] && buf'[p] == buf'[p..][0];
    if buf[p] != '\0' {
      assert buf[p + 1..] == buf[p..][1..] && buf'[p + 1..] == buf'[p..][1..];
      CStringLocal(buf, buf', p + 1);
    }
  }

  /** The string buffer that `strtok` cuts, with its saved cursor; -1 stands for NULL. */
  class Tokenizer {
    const buf: array<char>
    var saved: int

    ghost predicate Valid()
      reads this, buf
    {
      Terminated(buf[..]) && -1 <= saved < buf.Length
    }

    /** What is still to be cut. */
    ghost function Rest(): string
      requires Valid()
      reads this, buf
    {
      if saved < 0 then "" else CString(buf[..], saved)
    }

    /** The copy of a path that the lookup cuts: at most 255 characters. */
    constructor (path: string)
      requires '\0' !in path
      ensures Valid() && fresh(buf)
      ensures Rest() == if |path| <= 255 then path else path[..255]
    {
      buf := new char[256];
      saved := 0;
      new;
      var n := if |path| <= 255 then |path| else 255;
      for i := 0 to n
        invariant saved == 0 && buf[..i] == path[..i]
      {
        buf[i] := path[i];
      }
      for i := n to 256
        invariant saved == 0 && buf[..n] == path[..n]
        invariant forall k :: n <= k < i ==> buf[k] == '\0'
      {
        buf[i] := '\0';
      }
      assert buf[255] == '\0' && buf[n] == '\0';
      assert buf[..][0..n] == path[..n];
      CStringRun(buf[..], 0, n);
    }

    /** The first loop of `strtok`. */
    method SkipSlashes()
      requires Valid() && saved >= 0
      modifies this`saved
      ensures Valid() && saved >= 0 && buf[saved] != '/'
      ensures Tokens(Rest()) == Tokens(old(Rest()))
    {
      hide Tokens, CString;
      while buf[saved] != '\0' && buf[saved] == '/'
        invariant 0 <= saved < buf.Length
        invariant Tokens(Rest()) == Tokens(old(Rest()))
        decreases buf.Length - saved
      {
        LeadingSlash(buf[..], saved);
        saved := saved + 1;
      }
    }

    /** The second loop of `strtok`. */
    method ScanToken()
      requires Valid() && saved >= 0
      modifies this`saved
      ensures Valid() && old(saved) <= saved && (buf[saved] == '\0' || buf[saved] == '/')
      ensures '/' !in buf[old(saved)..saved] && '\0' !in buf[old(saved)..saved]
    {
      var start := saved;
      while buf[saved] != '\0' && buf[saved] != '/'
        invariant start <= saved < buf.Length
        invariant '/' !in buf[start..saved] && '\0' !in buf[start..saved]
        decreases buf.Length - saved
      {
        assert buf[start..saved + 1] == buf[start..saved] + [buf[saved]];
        saved := saved + 1;
      }
    }

    /** `strtok` with the delimiter "/": the start of the next token, or -1. */
    method Next() returns (start: int)
      requires Valid()
      modifies this, buf
      ensures Valid()
      ensures var ts := Tokens(old(Rest()));
              if ts == [] then start == -1 && Tokens(Rest()) == []
              else
                && 0 <= start < buf.Length && CString(buf[..], start) == ts[0]
                && Tokens(Rest()) == ts[1..]
    {
      hide Tokens, CString;
      RootTokens();
      if saved < 0 {
        return -1;
      }
      SkipSlashes();
      EmptyAt(buf[..], saved);
      if buf[saved] == '\0' {
        return -1;
      }
      start := saved;
      ScanToken();
      ghost var was, stop := buf[..], saved;
      assert was[start..stop] == buf[start..stop];
      CutToken(was, start, stop);
      if buf[saved] != '\0' {
        buf[saved] := '\0';
        saved := saved + 1;
      } else {
        saved := -1;
      }
      assert buf[..] == was[stop := '\0'];
      AfterCut(was, buf[..], start, stop);
    }
  }

  lemma EmptyAt(buf: seq<char>, p: nat)
    requires Terminated(buf) && p < |buf|
    ensures buf[p] == '\0' ==> CString(buf, p) == ""
  {
  }

  lemma LeadingSlash(buf: seq<char>, p: nat)
    requires Terminated(buf) && p < |buf| && buf[p] == '/'
    ensures p + 1 < |buf| && Tokens(CString(buf, p)) == Tokens(CString(buf, p + 1))
  {
    assert CString(buf, p)[1..] == CString(buf, p + 1);
  }

  /** The token from `start` to `stop`, and what follows it, in the string at `start`. */
  lemma CutToken(buf: seq<char>, start: nat, stop: nat)
    requires Terminated(buf) && start <= stop < |buf| && buf[start] != '\0' && buf[start] != '/'
    requires '/' !in buf[start..stop] && '\0' !in buf[start..stop]
    requires buf[stop] == '\0' || buf[stop] == '/'
    ensures var ts := Tokens(CString(buf, start));
            && ts != [] && ts[0] == buf[start..stop]
            && ts[1..] == if buf[stop] == '\0' then [] else Tokens(CString(buf, stop + 1))
  {
    CStringRun(buf, start, stop);
    var s, rest := CString(buf, start), CString(buf, stop);
    var n := stop - start;
    assert s[..n] == buf[start..stop] && s[n..] == rest;
    WordIs(s, n);
    if buf[stop] == '/' {
      assert rest[1..] == CString(buf, stop + 1);
    }
  }

  /** Overwriting the delimiter ends the token there and leaves the rest alone. */
  lemma AfterCut(buf: seq<char>, buf': seq<char>, start: nat, stop: nat)
    requires Terminated(buf) && start <= stop < |buf| && '\0' !in buf[start..stop]
    requires buf' == buf[stop := '\0']
    ensures CString(buf', start) == buf[start..stop]
    ensures stop + 1 < |buf| ==> CString(buf', stop + 1) == CString(buf, stop + 1)
  {
    assert buf'[start..stop] == buf[start..stop];
    CStringRun(buf', start, stop);
    if stop + 1 < |buf| {
      CStringLocal(buf, buf', stop + 1);
    }
  }
}
