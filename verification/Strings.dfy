/** Null-terminated strings in byte buffers (lib/string.c): copying, comparing,
    searching, and the tokenizer with its static cursor. */
module Strings {
  import opened Machine

  type Bytes = seq<byte>

  /** The string at offset `off`: up to the first 0, or the end of the buffer. */
  function CStr(buf: Bytes, off: nat): Bytes
    requires off <= |buf|
    decreases |buf| - off
  {
    if off == |buf| || buf[off] == 0 then [] else [buf[off]] + CStr(buf, off + 1)
  }

  /** There is a 0 at or after `off`. */
  predicate Terminated(buf: Bytes, off: nat)
    decreases |buf| - off
  {
    off < |buf| && (buf[off] == 0 || Terminated(buf, off + 1))
  }

  lemma {:induction false} CStrRun(buf: Bytes, off: nat, end: nat)
    requires off <= end <= |buf| && forall k | off <= k < end :: buf[k] != 0
    ensures CStr(buf, off) == buf[off..end] + CStr(buf, end)
    decreases end - off
  {
    if off < end {
      CStrRun(buf, off + 1, end);
      assert buf[off..end] == [buf[off]] + buf[off + 1..end];
    }
  }

  /** The string depends only on the bytes from `off` on. */
  lemma {:induction false} CStrSuffix(a: Bytes, b: Bytes, off: nat)
    requires off <= |a| == |b| && a[off..] == b[off..]
    ensures CStr(a, off) == CStr(b, off)
    decreases |a| - off
  {
    if off < |a| {
      assert a[off] == a[off..][0] == b[off..][0];
      assert a[off + 1..] == a[off..][1..] && b[off + 1..] == b[off..][1..];
      CStrSuffix(a, b, off + 1);
    }
  }

  /** A string followed by a 0 reads back as itself. */
  lemma {:induction false} CStrReadsBack(s: Bytes, pad: Bytes)
    requires 0 !in s && pad != [] && pad[0] == 0
    ensures CStr(s + pad, 0) == s
  {
    CStrRun(s + pad, 0, |s|);
    assert (s + pad)[0..|s|] == s;
  }

  // Copying: strncpy pads with zeros.

  function Zeros(n: nat): (z: Bytes)
    ensures |z| == n && forall i | 0 <= i < n :: z[i] == 0
  {
    seq(n, _ => 0)
  }

  /** The `n` bytes that strncpy writes for string `s`. */
  function Padded(s: Bytes, n: nat): (p: Bytes)
    ensures |p| == n && forall i: nat | i < n :: p[i] == if i < |s| then s[i] else 0
  {
    if |s| >= n then s[..n] else s + Zeros(n - |s|)
  }

  method Strncpy(src: Bytes, off: nat, n: nat) returns (dest: Bytes)
    requires off <= |src|
    ensures dest == Padded(CStr(src, off), n)
  {
    hide CStr, Padded;
    dest := [];
    var i := 0;
    while i < n && off + i < |src| && src[off + i] != 0
      invariant i <= n && off + i <= |src| && dest == src[off..off + i]
      invariant forall k | off <= k < off + i :: src[k] != 0
    {
      dest := dest + [src[off + i]];
      i := i + 1;
    }
    ghost var copied := dest;
    CopiedPart(src, off, n, i, copied);
    NoZeros(copied);
    while i < n
      invariant |copied| <= i <= n && dest == copied + Zeros(i - |copied|)
    {
      ZerosSnoc(i - |copied|);
      dest := dest + [0];
      i := i + 1;
    }
  }

  lemma NoZeros(s: Bytes)
    ensures s + Zeros(0) == s
  {
  }

  /** Copying stops at the end of the string or after `n` bytes; the rest is
      padding. */
  lemma CopiedPart(src: Bytes, off: nat, n: nat, i: nat, copied: Bytes)
    requires i <= n && off + i <= |src| && copied == src[off..off + i]
    requires forall k | off <= k < off + i :: src[k] != 0
    requires i == n || off + i == |src| || src[off + i] == 0
    ensures Padded(CStr(src, off), n) == copied + Zeros(n - i)
  {
    CStrRun(src, off, off + i);
    assert CStr(src, off)[..i] == copied;
  }

  lemma ZerosSnoc(n: nat)
    ensures Zeros(n) + [0] == Zeros(n + 1)
  {
    assert Zeros(n) + [0] == Zeros(n + 1);
  }

  // Comparing.

  lemma SameHeads(s1: Bytes, off1: nat, s2: Bytes, off2: nat)
    requires off1 < |s1| && off2 < |s2| && s1[off1] == s2[off2] != 0
    ensures CStr(s1, off1) == CStr(s2, off2) <==> CStr(s1, off1 + 1) == CStr(s2, off2 + 1)
  {
    var a, b := CStr(s1, off1 + 1), CStr(s2, off2 + 1);
    assert CStr(s1, off1) == [s1[off1]] + a && CStr(s2, off2) == [s1[off1]] + b;
    assert ([s1[off1]] + a)[1..] == a && ([s1[off1]] + b)[1..] == b;
  }

  /** Where one string ends or the two differ, the next bytes decide. */
  lemma HeadDecides(s1: Bytes, off1: nat, s2: Bytes, off2: nat)
    requires off1 <= |s1| && off2 <= |s2|
    requires !(off1 < |s1| && s1[off1] != 0 && off2 < |s2| && s1[off1] == s2[off2])
    ensures CStr(s1, off1) == CStr(s2, off2)
            <==> (if off1 < |s1| then s1[off1] else 0) == (if off2 < |s2| then s2[off2] else 0)
  {
    assert off1 < |s1| && s1[off1] != 0 ==> CStr(s1, off1)[0] == s1[off1];
    assert off2 < |s2| && s2[off2] != 0 ==> CStr(s2, off2)[0] == s2[off2];
  }

  /** Byte `i` of a string; 0 at its end. */
  function At(s: Bytes, i: nat): nat
    requires i <= |s|
  {
    if i < |s| then s[i] else 0
  }

  /** The strings agree before position `i`, and there `d` is the difference. */
  predicate DifferAt(a: Bytes, b: Bytes, i: nat, d: int) {
    i <= |a| && i <= |b| && a[..i] == b[..i] && d == At(a, i) - At(b, i)
  }

  /** 0 for equal strings, else the difference of the first bytes that differ. */
  method Strcmp(s1: Bytes, off1: nat, s2: Bytes, off2: nat) returns (d: int)
    requires off1 <= |s1| && off2 <= |s2|
    ensures d == 0 <==> CStr(s1, off1) == CStr(s2, off2)
    ensures exists i: nat :: DifferAt(CStr(s1, off1), CStr(s2, off2), i, d)
  {
    var i := 0;
    while off1 + i < |s1| && s1[off1 + i] != 0 && off2 + i < |s2| && s1[off1 + i] == s2[off2 + i]
      invariant off1 + i <= |s1| && off2 + i <= |s2| && s1[off1..off1 + i] == s2[off2..off2 + i]
      invariant 0 !in s1[off1..off1 + i]
      invariant CStr(s1, off1) == CStr(s2, off2) <==> CStr(s1, off1 + i) == CStr(s2, off2 + i)
    {
      SameHeads(s1, off1 + i, s2, off2 + i);
      assert s1[off1..off1 + i + 1] == s1[off1..off1 + i] + [s1[off1 + i]];
      assert s2[off2..off2 + i + 1] == s2[off2..off2 + i] + [s2[off2 + i]];
      i := i + 1;
    }
    HeadDecides(s1, off1 + i, s2, off2 + i);
    var c1: int := if off1 + i < |s1| then s1[off1 + i] else 0;
    var c2: int := if off2 + i < |s2| then s2[off2 + i] else 0;
    d := c1 - c2;
    StringAt(s1, off1, i);
    StringAt(s2, off2, i);
    assert DifferAt(CStr(s1, off1), CStr(s2, off2), i, d);
  }

  lemma StringAt(s: Bytes, off: nat, i: nat)
    requires off + i <= |s| && 0 !in s[off..off + i]
    ensures i <= |CStr(s, off)| && CStr(s, off)[..i] == s[off..off + i]
    ensures At(CStr(s, off), i) == if off + i < |s| then s[off + i] else 0
  {
    assert forall k | off <= k < off + i :: s[k] == s[off..off + i][k - off];
    CStrRun(s, off, off + i);
    assert CStr(s, off)[i..] == CStr(s, off + i);
  }

  // Searching.

  /** The last position of `c` in `s`, or -1. */
  function LastIndex(s: Bytes, c: byte): (i: int)
    ensures -1 <= i < |s|
  {
    if s == [] then -1
    else if s[|s| - 1] == c then |s| - 1
    else LastIndex(s[..|s| - 1], c)
  }

  lemma {:induction false} LastIndexMeans(s: Bytes, c: byte)
    ensures var i := LastIndex(s, c);
      if i == -1 then c !in s else s[i] == c && forall k | i < k < |s| :: s[k] != c
  {
    if s != [] && s[|s| - 1] != c {
      var t := s[..|s| - 1];
      LastIndexMeans(t, c);
      assert s == t + [s[|s| - 1]];
    }
  }

  /** Looking for 0 finds the end of the string. */
  method Strrchr(s: Bytes, c: byte) returns (last: int)
    ensures last == if c == 0 then |CStr(s, 0)| else LastIndex(CStr(s, 0), c)
  {
    last := -1;
    var i := 0;
    while i < |s| && s[i] != 0
      invariant i <= |s| && forall k | 0 <= k < i :: s[k] != 0
      invariant c != 0 ==> last == LastIndex(s[..i], c)
    {
      if s[i] == c {
        last := i;
      }
      assert s[..i + 1][..i] == s[..i];
      i := i + 1;
    }
    CStrRun(s, 0, i);
    assert CStr(s, 0) == s[..i];
    if c == 0 {
      return i;
    }
  }

  // Splitting.

  /** The pieces of `s` between delimiters, in order; no piece is empty. */
  function Split(s: Bytes, delims: Bytes): seq<Bytes> {
    if s == [] then []
    else if s[0] in delims then Split(s[1..], delims)
    else if |s| > 1 && s[1] !in delims then
      var rest := Split(s[1..], delims);
      if rest == [] then [[s[0]]] else [[s[0]] + rest[0]] + rest[1..]
    else [[s[0]]] + Split(s[1..], delims)
  }

  function Flatten(ss: seq<Bytes>): Bytes {
    if ss == [] then [] else ss[0] + Flatten(ss[1..])
  }

  /** `s` without its delimiters. */
  function Keep(s: Bytes, delims: Bytes): Bytes {
    if s == [] then [] else (if s[0] in delims then [] else [s[0]]) + Keep(s[1..], delims)
  }

  /** The pieces are non-empty and free of delimiters. */
  lemma {:induction false} SplitPieces(s: Bytes, delims: Bytes)
    ensures forall i | 0 <= i < |Split(s, delims)| :: PieceOf(Split(s, delims)[i], s, delims)
  {
    if s != [] {
      var ps, rest := Split(s, delims), Split(s[1..], delims);
      SplitPieces(s[1..], delims);
      forall i | 0 <= i < |ps|
        ensures PieceOf(ps[i], s, delims)
      {
        if s[0] in delims {
          assert PieceOf(rest[i], s[1..], delims);
        } else if |s| > 1 && s[1] !in delims && rest != [] {
          assert PieceOf(rest[i], s[1..], delims);
        } else if i > 0 {
          assert ps[i] == rest[i - 1];
          assert PieceOf(rest[i - 1], s[1..], delims);
        }
      }
    }
  }

  predicate PieceOf(p: Bytes, s: Bytes, delims: Bytes) {
    p != [] && forall c | c in p :: c in s && c !in delims
  }

  lemma SplitNonEmpty(s: Bytes, delims: Bytes)
    requires s != [] && s[0] !in delims
    ensures Split(s, delims) != []
  {
  }

  /** The pieces hold every byte but the delimiters, in order. */
  lemma {:induction false} SplitFlatten(s: Bytes, delims: Bytes)
    ensures Flatten(Split(s, delims)) == Keep(s, delims)
  {
    if s != [] {
      var ps, rest := Split(s, delims), Split(s[1..], delims);
      SplitFlatten(s[1..], delims);
      if s[0] !in delims {
        if |s| > 1 && s[1] !in delims {
          SplitNonEmpty(s[1..], delims);
          assert ps[1..] == rest[1..];
          assert ([s[0]] + rest[0]) + Flatten(rest[1..]) == [s[0]] + (rest[0] + Flatten(rest[1..]));
        } else {
          assert ps[1..] == rest;
        }
      }
    }
  }

  /** A leading delimiter does not matter. */
  lemma SplitSkip(s: Bytes, delims: Bytes)
    requires s != [] && s[0] in delims
    ensures Split(s, delims) == Split(s[1..], delims)
  {
  }

  /** A maximal run of other bytes is the first piece. */
  lemma {:induction false} SplitRun(a: Bytes, b: Bytes, delims: Bytes)
    requires a != [] && (forall c | c in a :: c !in delims) && (b == [] || b[0] in delims)
    ensures Split(a + b, delims) == [a] + Split(b, delims)
  {
    var s := a + b;
    assert s[0] == a[0] && s[1..] == a[1..] + b;
    if |a| > 1 {
      assert s[1] == a[1];
      SplitRun(a[1..], b, delims);
      assert [a[0]] + a[1..] == a;
    } else {
      assert s[1..] == b && a == [a[0]];
      assert |s| > 1 ==> s[1] == b[0];
    }
  }

  // Tokenizing in place.

  lemma {:induction false} TerminatedSuffix(a: Bytes, b: Bytes, off: nat)
    requires off <= |a| == |b| && a[off..] == b[off..] && Terminated(a, off)
    ensures Terminated(b, off)
    decreases |a| - off
  {
    assert a[off] == a[off..][0] == b[off..][0];
    if a[off] != 0 {
      assert a[off + 1..] == a[off..][1..] && b[off + 1..] == b[off..][1..];
      TerminatedSuffix(a, b, off + 1);
    }
  }

  /** The first token at or after `pos` is `buf[start..end]`. */
  ghost predicate TokenAt(buf: Bytes, pos: nat, delims: Bytes, start: nat, end: nat) {
    && pos <= start < end < |buf|
    && Terminated(buf, end)
    && (forall k | start <= k < end :: buf[k] != 0 && buf[k] !in delims)
    && (buf[end] == 0 || buf[end] in delims)
    && Split(CStr(buf, pos), delims) == [buf[start..end]] + Split(CStr(buf, end), delims)
  }

  lemma TokenFound(buf: Bytes, pos: nat, delims: Bytes, start: nat, end: nat)
    requires pos <= start < end < |buf| && Terminated(buf, end) && 0 !in delims
    requires forall k | start <= k < end :: buf[k] != 0 && buf[k] !in delims
    requires buf[end] == 0 || buf[end] in delims
    requires Split(CStr(buf, pos), delims) == Split(CStr(buf, start), delims)
    ensures TokenAt(buf, pos, delims, start, end)
  {
    CStrRun(buf, start, end);
    SplitRun(buf[start..end], CStr(buf, end), delims);
  }

  /** Ending the token with a 0 leaves the token as a string at `start` and the
      rest of the tokens after it. */
  lemma TokenCut(buf: Bytes, pos: nat, delims: Bytes, start: nat, end: nat, cut: Bytes)
    requires TokenAt(buf, pos, delims, start, end)
    requires cut == buf[end := 0]
    ensures CStr(cut, start) == buf[start..end]
    ensures buf[end] != 0 ==>
      && end + 1 < |buf| && Terminated(cut, end + 1)
      && Split(CStr(cut, end + 1), delims) == Split(CStr(buf, end), delims)
    ensures buf[end] == 0 ==> Split(CStr(buf, end), delims) == []
  {
    CStrRun(cut, start, end);
    assert cut[start..end] == buf[start..end];
    if buf[end] != 0 {
      assert cut[end + 1..] == buf[end + 1..];
      TerminatedSuffix(buf, cut, end + 1);
      CStrSuffix(buf, cut, end + 1);
      SplitSkip(CStr(buf, end), delims);
      assert CStr(buf, end)[1..] == CStr(buf, end + 1);
    }
  }

  class Tokenizer {
    /** The static cursor: the buffer being split and the position in it; null
        when there is nothing left. */
    var text: array?<byte>
    var lastPos: nat

    ghost predicate Valid()
      reads this, text
    {
      text != null ==> Terminated(text[..], lastPos)
    }

    /** What is left to split. */
    ghost function Rest(): Bytes
      requires Valid()
      reads this, text
    {
      if text == null then [] else CStr(text[..], lastPos)
    }

    constructor ()
      ensures Valid() && text == null
    {
      text := null;
      lastPos := 0;
    }

    method IsDelimiter(c: byte, delims: Bytes) returns (r: bool)
      ensures r <==> c in delims
    {
      r := false;
      var d := 0;
      while d < |delims|
        invariant d <= |delims| && !r && c !in delims[..d]
      {
        if c == delims[d] {
          return true;
        }
        d := d + 1;
      }
    }

    /** Where the first token at or after `pos` starts and ends; start == end
        when there is none. */
    method FindToken(buf: array<byte>, pos: nat, delims: Bytes) returns (start: nat, end: nat)
      requires Terminated(buf[..], pos) && 0 !in delims
      ensures start == end ==> Split(CStr(buf[..], pos), delims) == []
      ensures start != end ==> TokenAt(buf[..], pos, delims, start, end)
    {
      hide Split;
      ghost var b := buf[..];
      start := pos;
      while buf[start] != 0
        invariant pos <= start < buf.Length && Terminated(b, start)
        invariant Split(CStr(b, pos), delims) == Split(CStr(b, start), delims)
        decreases buf.Length - start
      {
        var isDelimiter := IsDelimiter(buf[start], delims);
        if !isDelimiter {
          break;
        }
        SplitSkip(CStr(b, start), delims);
        assert CStr(b, start)[1..] == CStr(b, start + 1);
        start := start + 1;
      }
      end := start;
      while buf[end] != 0
        invariant start <= end < buf.Length && Terminated(b, end)
        invariant forall k | start <= k < end :: b[k] != 0 && b[k] !in delims
        invariant start == end ==> b[start] == 0 || b[start] !in delims
        decreases buf.Length - end
      {
        var isDelimiter := IsDelimiter(buf[end], delims);
        if isDelimiter {
          break;
        }
        end := end + 1;
      }
      if start == end {
        SplitNothing(delims);
      } else {
        TokenFound(b, pos, delims, start, end);
      }
    }

    /** One call. Given a string it starts over there, given null it goes on. The
        result is the offset of the next token in the buffer, or -1. Only the
        delimiter after the token is overwritten. */
    method Strtok(str: array?<byte>, delims: Bytes) returns (token: int)
      requires str != null ==> Terminated(str[..], 0)
      requires str == null ==> Valid()
      requires 0 !in delims
      modifies this, str, text
      ensures Valid()
      ensures var b := if str != null then str else old(text);
        var s := if str != null then old(CStr(str[..], 0)) else old(Rest());
        && (text == null || text == b)
        && (Split(s, delims) == [] ==> token == -1 && text == null && (b != null ==> b[..] == old(b[..])))
        && (Split(s, delims) != [] ==>
              && b != null && 0 <= token < b.Length
              && CStr(b[..], token) == Split(s, delims)[0]
              && Split(Rest(), delims) == Split(s, delims)[1..]
              && OnlyDelimiters(old(b[..]), b[..], delims))
    {
      hide Split, CStr, Terminated, OnlyDelimiters;
      if str != null {
        text := str;
        lastPos := 0;
      } else if text == null {
        SplitNothing(delims);
        return -1;
      }
      var buf := text;
      ghost var before, pos := buf[..], lastPos;
      var start, end := FindToken(buf, lastPos, delims);
      if start == end {
        text := null;
        return -1;
      }
      TokenCut(before, pos, delims, start, end, before[end := 0]);
      SplitNothing(delims);
      if buf[end] != 0 {
        buf[end] := 0;
        lastPos := end + 1;
      } else {
        text := null;
      }
      assert buf[..] == before[end := 0];
      OneDelimiter(before, delims, end);
      return start;
    }

    /** `token` is the offset of the first of the pieces `left` in `buf`, and the
        cursor stands before the others; -1 when none are left. */
    ghost predicate At(buf: array<byte>, delims: Bytes, token: int, left: seq<Bytes>)
      reads this, text, buf
    {
      && Valid() && (text == null || text == buf)
      && (token == -1 ==> left == [])
      && (token != -1 ==>
            && left != [] && 0 <= token < buf.Length
            && CStr(buf[..], token) == left[0] && Split(Rest(), delims) == left[1..])
    }

    /** The call that is given the string. */
    method Start(buf: array<byte>, delims: Bytes) returns (token: int)
      requires Terminated(buf[..], 0) && 0 !in delims
      modifies this, buf, text
      ensures At(buf, delims, token, Split(old(CStr(buf[..], 0)), delims))
      ensures OnlyDelimiters(old(buf[..]), buf[..], delims)
    {
      hide Split, CStr, Terminated, OnlyDelimiters;
      SameBytes(buf[..], delims);
      token := Strtok(buf, delims);
    }

    /** A later call, given null. */
    method Next(buf: array<byte>, delims: Bytes, ghost token: int, ghost left: seq<Bytes>) returns (next: int)
      requires At(buf, delims, token, left) && token != -1 && 0 !in delims
      modifies this, buf, text
      ensures At(buf, delims, next, left[1..])
      ensures OnlyDelimiters(old(buf[..]), buf[..], delims)
    {
      hide Split, CStr, Terminated, OnlyDelimiters;
      SameBytes(buf[..], delims);
      SplitNothing(delims);
      next := Strtok(null, delims);
    }
  }

  lemma SplitNothing(delims: Bytes)
    ensures Split([], delims) == []
  {
  }

  /** Bytes change only from a delimiter to 0. */
  predicate OnlyDelimiters(a: Bytes, b: Bytes, delims: Bytes) {
    |a| == |b| && forall k | 0 <= k < |a| :: a[k] == b[k] || (a[k] in delims && b[k] == 0)
  }

  lemma OneDelimiter(a: Bytes, delims: Bytes, end: nat)
    requires end < |a| && (a[end] == 0 || a[end] in delims)
    ensures OnlyDelimiters(a, a[end := 0], delims)
  {
  }

  /** All tokens of the string in `buf`: one call with the buffer, then calls
      with null until there are no more. */
  method Tokens(buf: array<byte>, delims: Bytes) returns (tokens: seq<Bytes>)
    requires Terminated(buf[..], 0) && 0 !in delims
    modifies buf
    ensures tokens == Split(CStr(old(buf[..]), 0), delims)
    ensures OnlyDelimiters(old(buf[..]), buf[..], delims)
  {
    hide Split, CStr, Terminated, OnlyDelimiters;
    ghost var before := buf[..];
    ghost var all := Split(CStr(before, 0), delims);
    var t := new Tokenizer();
    tokens := [];
    var token := t.Start(buf, delims);
    ghost var left := all;
    while token != -1
      invariant fresh(t) && t.At(buf, delims, token, left)
      invariant OnlyDelimiters(before, buf[..], delims)
      invariant all == tokens + left
      decreases |left|
    {
      var piece := ReadString(buf, token);
      ghost var now := buf[..];
      TakeOne(tokens, left);
      tokens := tokens + [piece];
      token := t.Next(buf, delims, token, left);
      left := left[1..];
      MoreDelimiters(before, now, buf[..], delims);
    }
  }

  lemma TakeOne(taken: seq<Bytes>, left: seq<Bytes>)
    requires left != []
    ensures taken + left == (taken + [left[0]]) + left[1..]
  {
  }

  lemma SameBytes(a: Bytes, delims: Bytes)
    ensures OnlyDelimiters(a, a, delims)
  {
  }

  lemma MoreDelimiters(a: Bytes, b: Bytes, c: Bytes, delims: Bytes)
    requires OnlyDelimiters(a, b, delims)
    ensures OnlyDelimiters(b, c, delims) || b == c ==> OnlyDelimiters(a, c, delims)
  {
  }

  method ReadString(buf: array<byte>, off: nat) returns (s: Bytes)
    requires off <= buf.Length
    ensures s == CStr(buf[..], off)
  {
    var end := off;
    while end < buf.Length && buf[end] != 0
      invariant off <= end <= buf.Length && forall k | off <= k < end :: buf[k] != 0
    {
      end := end + 1;
    }
    CStrRun(buf[..], off, end);
    s := buf[off..end];
    assert buf[..][off..end] == s;
  }
}
