/** Cuts a pattern into `%` segments and a segment into literals. The pattern is bytes; both wildcards and the
    escape character are ASCII, so cutting bytes never cuts a code point. */
module Tokenizers {
  import opened Options
  import opened Utf8
  import opened LikePredicate

  const PERCENT: Code := 0x25
  const UNDERSCORE: Code := 0x5F

  /** `escapePrefixBeforeStart` is how many bytes of the segment in front of the literal are taken for escapes. */
  datatype LiteralSpan = LiteralSpan(start: nat, len: nat, escapePrefixBeforeStart: nat)
  {
    function End(): nat { start + len }
  }

  predicate IsWildcard(b: nat)
  {
    b == PERCENT || b == UNDERSCORE
  }

  /** The character at `i` is immediately preceded by the escape character. */
  predicate IsEscaped(p: seq<byte>, esc: Option<Code>, i: nat)
    requires i < |p|
  {
    esc.Some? && i > 0 && p[i - 1] == esc.value
  }

  /** `%`, `_` or the escape character itself. */
  predicate IsEscapable(p: seq<byte>, esc: Option<Code>, i: nat)
    requires i < |p|
  {
    IsWildcard(p[i]) || (esc.Some? && p[i] == esc.value)
  }

  /** The wildcard `b` stands at `i`, as the tokenizer sees it. */
  predicate IsDelim(p: seq<byte>, esc: Option<Code>, b: byte, i: nat)
    requires i < |p|
  {
    p[i] == b && !IsEscaped(p, esc, i)
  }

  ghost predicate AllDelims(p: seq<byte>, esc: Option<Code>, x: nat, y: nat, b: byte)
    requires y <= |p|
  {
    forall k :: x <= k < y ==> IsDelim(p, esc, b, k)
  }

  ghost predicate NoDelim(p: seq<byte>, esc: Option<Code>, x: nat, y: nat, b: byte)
    requires y <= |p|
  {
    forall k :: x <= k < y ==> !IsDelim(p, esc, b, k)
  }

  /** How many bytes between `x` and `y` the tokenizer counts as escaped. */
  ghost function Counted(p: seq<byte>, esc: Option<Code>, x: nat, y: nat): nat
    requires x <= y <= |p|
    decreases y - x
  {
    if x == y then 0
    else Counted(p, esc, x, y - 1) + if IsEscaped(p, esc, y - 1) && IsEscapable(p, esc, y - 1) then 1 else 0
  }

  lemma {:induction false} CountedSplit(p: seq<byte>, esc: Option<Code>, x: nat, y: nat, z: nat)
    requires x <= y <= z <= |p|
    ensures Counted(p, esc, x, z) == Counted(p, esc, x, y) + Counted(p, esc, y, z)
    decreases z - y
  {
    if y < z { CountedSplit(p, esc, x, y, z - 1); }
  }

  lemma {:induction false} CountedNone(p: seq<byte>, esc: Option<Code>, x: nat, y: nat)
    requires x <= y <= |p|
    requires forall k :: x <= k < y ==> !IsEscaped(p, esc, k) || !IsEscapable(p, esc, k)
    ensures Counted(p, esc, x, y) == 0
    decreases y - x
  {
    if x < y { CountedNone(p, esc, x, y - 1); }
  }

  /** `s` without its escapes: the escape character goes, what follows stays whatever it is. */
  ghost function Stripped(s: seq<byte>, esc: Option<Code>): seq<byte>
  {
    if s == [] then []
    else if esc.Some? && s[0] == esc.value then (if |s| == 1 then [] else [s[1]] + Stripped(s[2..], esc))
    else [s[0]] + Stripped(s[1..], esc)
  }

  lemma StrippedEmpty(s: seq<byte>, esc: Option<Code>)
    ensures s == [] ==> Stripped(s, esc) == []
  {
  }

  lemma {:induction false} StrippedNone(s: seq<byte>)
    ensures Stripped(s, None) == s
  {
    if s != [] {
      StrippedNone(s[1..]);
      assert s == [s[0]] + s[1..];
    }
  }

  lemma OneMore(a: seq<byte>, b: byte, r: seq<byte>)
    ensures a + ([b] + r) == a + [b] + r
  {
  }

  class Tokenizer {
    const p: seq<byte>
    const esc: Option<Code>
    var pos: nat     // segment-level cursor
    var litPos: nat  // literal-level cursor
    var accumEscLen: nat

    constructor (pattern: seq<byte>, escape: Option<Code>)
      ensures p == pattern && esc == escape && pos == 0 && litPos == 0 && accumEscLen == 0
    {
      p, esc, pos, litPos, accumEscLen := pattern, escape, 0, 0, 0;
    }

    /** The next maximal stretch without `%` (0x25); the cursor stays behind the last one when there is none. */
    method NextSegment() returns (r: Option<LiteralSpan>)
      requires pos <= |p|
      modifies this
      ensures r.None? ==> pos == old(pos) && AllDelims(p, esc, pos, |p|, 0x25)
      ensures r.Some? ==>
                && old(pos) <= r.value.start < r.value.End() == pos <= |p|
                && litPos == r.value.start && accumEscLen == 0 && r.value.escapePrefixBeforeStart == 0
                && AllDelims(p, esc, old(pos), r.value.start, 0x25)
                && NoDelim(p, esc, r.value.start, pos, 0x25)
                && (pos < |p| ==> IsDelim(p, esc, 0x25, pos))
    {
      var before := pos;
      while pos < |p| && IsDelim(p, esc, PERCENT, pos)
        invariant before <= pos <= |p| && AllDelims(p, esc, before, pos, PERCENT)
      {
        pos := pos + 1;
      }
      if pos >= |p| {
        pos := before;
        return None;
      }
      var start := pos;
      while pos < |p| && !IsDelim(p, esc, PERCENT, pos)
        invariant start <= pos <= |p| && NoDelim(p, esc, start, pos, PERCENT)
        invariant pos == start ==> !IsDelim(p, esc, PERCENT, pos)
      {
        pos := pos + 1;
      }
      litPos := start;
      accumEscLen := 0;
      return Some(LiteralSpan(start, pos - start, 0));
    }

    /** The next maximal stretch of `seg` without `_` (0x5F), and how many escapes the stretches before it hold. */
    method NextLiteral(seg: LiteralSpan) returns (r: Option<LiteralSpan>)
      requires seg.start <= litPos <= seg.End() <= |p|
      requires NoDelim(p, esc, seg.start, seg.End(), 0x25)
      modifies this`litPos, this`accumEscLen
      ensures r.None? ==>
                && litPos == seg.End() && AllDelims(p, esc, old(litPos), litPos, 0x5F)
                && accumEscLen == old(accumEscLen)
      ensures r.Some? ==>
                && old(litPos) <= r.value.start < r.value.End() == litPos <= seg.End()
                && AllDelims(p, esc, old(litPos), r.value.start, 0x5F)
                && NoDelim(p, esc, r.value.start, litPos, 0x5F)
                && (litPos < seg.End() ==> IsDelim(p, esc, 0x5F, litPos))
                && r.value.escapePrefixBeforeStart == old(accumEscLen)
                && accumEscLen == old(accumEscLen) + Counted(p, esc, r.value.start, litPos)
    {
      ghost var before := litPos;
      while litPos < seg.End() && IsDelim(p, esc, UNDERSCORE, litPos)
        invariant before <= litPos <= seg.End() && AllDelims(p, esc, before, litPos, UNDERSCORE)
        invariant accumEscLen == old(accumEscLen)
      {
        litPos := litPos + 1;
      }
      if litPos >= seg.End() { return None; }
      var start, escapeBeforeStart := litPos, accumEscLen;
      while litPos < seg.End() && !IsDelim(p, esc, UNDERSCORE, litPos) && !IsDelim(p, esc, PERCENT, litPos)
        invariant start <= litPos <= seg.End() && NoDelim(p, esc, start, litPos, UNDERSCORE)
        invariant litPos == start ==> !IsDelim(p, esc, UNDERSCORE, litPos)
        invariant accumEscLen == escapeBeforeStart + Counted(p, esc, start, litPos)
      {
        if esc.Some? && IsEscaped(p, esc, litPos) && IsEscapable(p, esc, litPos) { accumEscLen := accumEscLen + 1; }
        litPos := litPos + 1;
      }
      return Some(LiteralSpan(start, litPos - start, escapeBeforeStart));
    }

    /** The literal of a span. Without an escape character the bytes are handed out as they are. */
    method StripEscapes(span: LiteralSpan) returns (out: seq<byte>)
      requires span.End() <= |p|
      ensures out == Stripped(p[span.start..span.End()], esc)
    {
      hide Stripped;
      if esc.None? {
        StrippedNone(p[span.start..span.End()]);
        return p[span.start..span.End()];
      }
      var src, end := span.start, span.End();
      out := [];
      while src < end
        invariant span.start <= src <= end
        invariant out + Stripped(p[src..end], esc) == Stripped(p[span.start..end], esc)
        decreases end - src
      {
        StripStep(src, end);
        if p[src] == esc.value {
          src := src + 1;
          if src < end {
            OneMore(out, p[src], Stripped(p[src + 1..end], esc));
            out := out + [p[src]];
            src := src + 1;
          } else {
            StrippedEmpty(p[src..end], esc);
          }
        } else {
          OneMore(out, p[src], Stripped(p[src + 1..end], esc));
          out := out + [p[src]];
          src := src + 1;
        }
      }
      StrippedEmpty(p[src..end], esc);
    }

    lemma StripStep(src: nat, end: nat)
      requires src < end <= |p| && esc.Some?
      ensures Stripped(p[src..end], esc) ==
              if p[src] != esc.value then [p[src]] + Stripped(p[src + 1..end], esc)
              else if src + 1 == end then [] else [p[src + 1]] + Stripped(p[src + 2..end], esc)
    {
      assert p[src..end][1..] == p[src + 1..end];
      if src + 1 < end { assert p[src..end][2..] == p[src + 2..end]; }
    }
  }
}
