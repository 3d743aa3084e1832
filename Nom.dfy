/** The part of the nom parser-combinator library that the IRC parser uses:
    byte-slice input, the `complete` variants of `take_while1`, `take_till`
    and `tag`, `opt`, and the two byte classes `is_space` and
    `is_alphanumeric`. Every failure the parser can meet is a recoverable
    error, so one error constructor stands for all of them. */
module Nom {

  type Byte = bv8

  /** `&[u8]`: a borrowed byte slice, modelled as a value. */
  type Input = seq<Byte>

  datatype Option<+T> = None | Some(value: T)

  /** `IResult`: on success, the unconsumed input and the parser's output. */
  datatype IResult<+O> = Ok(rest: Input, out: O) | Err

  /** `nom::character::is_space`: space or horizontal tab. */
  predicate IsSpace(c: Byte)
  {
    c == 0x20 || c == 0x09
  }

  /** `nom::character::is_alphanumeric`: ASCII `A-Z`, `a-z` or `0-9`. */
  predicate IsAlphanumeric(c: Byte)
  {
    (0x41 <= c && c <= 0x5A) || (0x61 <= c && c <= 0x7A) || (0x30 <= c && c <= 0x39)
  }

  /** Length of the longest prefix of `i` whose bytes all satisfy `p`. */
  function Span(p: Byte -> bool, i: Input): (n: nat)
    ensures n <= |i|
    ensures forall k :: 0 <= k < n ==> p(i[k])
    ensures n < |i| ==> !p(i[n])
  {
    if |i| == 0 || !p(i[0]) then 0 else 1 + Span(p, i[1..])
  }

  /** The complement of the byte class `p`. */
  function Not(p: Byte -> bool): Byte -> bool
  {
    c => !p(c)
  }

  /** A run of `p`-bytes ended by a byte outside `p` spans exactly the run. */
  lemma {:induction false} SpanStopsAt(p: Byte -> bool, s: Input, x: Byte, tail: Input)
    requires forall j :: 0 <= j < |s| ==> p(s[j])
    requires !p(x)
    ensures Span(p, s + [x] + tail) == |s|
  {
    if |s| > 0 {
      assert (s + [x] + tail)[1..] == s[1..] + [x] + tail;
      SpanStopsAt(p, s[1..], x, tail);
    }
  }

  /** A run made only of `p`-bytes is spanned entirely. */
  lemma {:induction false} SpanAll(p: Byte -> bool, s: Input)
    requires forall j :: 0 <= j < |s| ==> p(s[j])
    ensures Span(p, s) == |s|
  {
    if |s| > 0 {
      SpanAll(p, s[1..]);
    }
  }

  /** `take_while1(p)`: the longest non-empty prefix whose bytes satisfy `p`;
      an error on empty input or when the first byte fails `p`. */
  function TakeWhile1(p: Byte -> bool, i: Input): (r: IResult<Input>)
    ensures r.Ok? <==> |i| > 0 && p(i[0])
    ensures r.Ok? ==> r.out + r.rest == i && |r.out| > 0
    ensures r.Ok? ==> forall k :: 0 <= k < |r.out| ==> p(r.out[k])
    ensures r.Ok? ==> r.rest == [] || !p(r.rest[0])
  {
    var n := Span(p, i);
    assert i[..n] + i[n..] == i;
    if n == 0 then Err else Ok(i[n..], i[..n])
  }

  /** `take_till(p)`: the possibly empty prefix up to the first byte that
      satisfies `p` (all of `i` when none does); it never fails. */
  function TakeTill(p: Byte -> bool, i: Input): (r: IResult<Input>)
    ensures r.Ok? && r.out + r.rest == i
    ensures forall k :: 0 <= k < |r.out| ==> !p(r.out[k])
    ensures r.rest == [] || p(r.rest[0])
  {
    var n := Span(Not(p), i);
    assert i[..n] + i[n..] == i;
    Ok(i[n..], i[..n])
  }

  /** `take_till(p)` stops at the first byte that satisfies `p`. */
  lemma TakeTillStopsAt(p: Byte -> bool, s: Input, x: Byte, tail: Input)
    requires forall j :: 0 <= j < |s| ==> !p(s[j])
    requires p(x)
    ensures TakeTill(p, s + [x] + tail) == Ok([x] + tail, s)
  {
    SpanStopsAt(Not(p), s, x, tail);
    var i := s + [x] + tail;
    assert i[..|s|] == s;
    assert i[|s|..] == [x] + tail;
  }

  /** `tag(t)`: matches the literal `t` at the start of the input. */
  function Tag(t: Input, i: Input): (r: IResult<Input>)
    ensures r.Ok? <==> t <= i
    ensures r.Ok? ==> r.out == t && i == t + r.rest
  {
    if |t| <= |i| && i[..|t|] == t then
      assert i == i[..|t|] + i[|t|..];
      Ok(i[|t|..], t)
    else Err
  }

  /** `opt(f)` applied to `i`, given `r`, the result of `f` on `i`: a failure
      becomes `None` without consuming anything. */
  function Opt<O>(r: IResult<O>, i: Input): (o: IResult<Option<O>>)
    ensures o.Ok?
    ensures o.out.None? <==> r.Err?
    ensures r.Err? ==> o.rest == i
    ensures r.Ok? ==> o == Ok(r.rest, Some(r.out))
  {
    match r
    case Ok(rest, out) => Ok(rest, Some(out))
    case Err => Ok(i, None)
  }
}
