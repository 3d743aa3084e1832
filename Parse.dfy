/** The byte-class predicates, the hostname sub-parsers and the IRCv3
    message-tag parser of src/parse.rs, as the nom combinators actually
    compose them. */
module Parse {
  import opened Nom

  const NUL: Byte := 0x00
  const LF: Byte := 0x0A
  const CR: Byte := 0x0D
  const SP: Byte := 0x20
  const PLUS: Byte := 0x2B
  const HYPHEN: Byte := 0x2D
  const SLASH: Byte := 0x2F
  const SEMI: Byte := 0x3B
  const EQ: Byte := 0x3D
  const AT: Byte := 0x40

  /** `SPECIAL`: the bytes ``[ ] \ ` _ ^ { | }``, the "special" set of section
      2.3.1 of RFC 2812, in the order src/parse.rs lists them. */
  const SPECIAL: Input := [0x5B, 0x5D, 0x5C, 0x60, 0x5F, 0x5E, 0x7B, 0x7C, 0x7D]

  // ---------------------------------------------------------------------
  // Byte classes

  /** `is_control`: the bytes at which `tag_value_strict` stops. */
  function IsControl(c: Byte): (r: bool)
    ensures r <==> c in {0x00, 0x0A, 0x0D, 0x20}
    ensures r ==> !IsAlphanumeric(c) && c != HYPHEN
  {
    c == SP || c == NUL || c == CR || c == LF
  }

  /** `is_special`: some byte of `SPECIAL` equals `c`. */
  predicate IsSpecial(c: Byte)
  {
    exists k :: 0 <= k < |SPECIAL| && SPECIAL[k] == c
  }

  /** `is_special` holds for exactly nine bytes, none of them alphanumeric
      or a control byte. */
  lemma SpecialBytes(c: Byte)
    ensures IsSpecial(c) <==> c in {0x5B, 0x5C, 0x5D, 0x5E, 0x5F, 0x60, 0x7B, 0x7C, 0x7D}
    ensures IsSpecial(c) ==> !IsAlphanumeric(c) && !IsControl(c)
  {
    assert IsSpecial(c) <==> c in SPECIAL;
  }

  /** The class of `lower_digit`: alphanumeric but not an upper-case letter. */
  function IsLowerDigit(c: Byte): (r: bool)
    ensures r <==> (0x61 <= c && c <= 0x7A) || (0x30 <= c && c <= 0x39)
  {
    IsAlphanumeric(c) && !(0x41 <= c && c <= 0x5A)
  }

  /** The class of `lower_digit_hyphen`: `lower_digit`'s class or `-`. */
  predicate IsLowerDigitHyphen(c: Byte)
  {
    IsLowerDigit(c) || c == HYPHEN
  }

  /** The class of `tag_key`: anything but space, `;` and `=`. */
  predicate IsTagKeyByte(c: Byte)
  {
    c != SP && c != SEMI && c != EQ
  }

  // ---------------------------------------------------------------------
  // Hostname sub-parsers

  /** `lower_digit`: the maximal non-empty run of `[a-z0-9]`. */
  function LowerDigit(i: Input): (r: IResult<Input>)
    ensures r.Ok? <==> |i| > 0 && IsLowerDigit(i[0])
    ensures r.Ok? ==> r.out + r.rest == i && |r.out| > 0
    ensures r.Ok? ==> forall k :: 0 <= k < |r.out| ==> IsLowerDigit(r.out[k])
    ensures r.Ok? ==> r.rest == [] || !IsLowerDigit(r.rest[0])
  {
    TakeWhile1(IsLowerDigit, i)
  }

  /** `lower_digit_hyphen`: the maximal non-empty run of `[a-z0-9-]`. */
  function LowerDigitHyphen(i: Input): (r: IResult<Input>)
    ensures r.Ok? <==> |i| > 0 && IsLowerDigitHyphen(i[0])
    ensures r.Ok? ==> r.out + r.rest == i && |r.out| > 0
    ensures r.Ok? ==> forall k :: 0 <= k < |r.out| ==> IsLowerDigitHyphen(r.out[k])
    ensures r.Ok? ==> r.rest == [] || !IsLowerDigitHyphen(r.rest[0])
  {
    TakeWhile1(IsLowerDigitHyphen, i)
  }

  /** `shortname`: `delimited(lower_digit, lower_digit_hyphen, lower_digit)`,
      whose output is the middle run. */
  function Shortname(i: Input): IResult<Input>
  {
    match LowerDigit(i)
    case Err => Err
    case Ok(i1, _) =>
      match LowerDigitHyphen(i1)
      case Err => Err
      case Ok(i2, middle) =>
        match LowerDigit(i2)
        case Err => Err
        case Ok(i3, _) => Ok(i3, middle)
  }

  /** `hostname`: runs `shortname` and, on success, returns the whole input
      as its output. */
  function Hostname(i: Input): IResult<Input>
  {
    match Shortname(i)
    case Err => Err
    case Ok(end, _) => Ok(end, i)
  }

  /** The middle `lower_digit_hyphen` of `shortname` eats every `[a-z0-9-]`
      byte there is, so the closing `lower_digit` never finds one: `shortname`
      fails on every input. */
  lemma ShortnameNeverSucceeds(i: Input)
    ensures Shortname(i) == Err
  {
    match LowerDigit(i)
    case Err =>
    case Ok(i1, _) =>
      match LowerDigitHyphen(i1)
      case Err =>
      case Ok(i2, _) =>
        assert i2 == [] || !IsLowerDigit(i2[0]);
        assert LowerDigit(i2) == Err;
  }

  /** Hence `hostname` fails on every input too. */
  lemma HostnameNeverSucceeds(i: Input)
    ensures Hostname(i) == Err
  {
    ShortnameNeverSucceeds(i);
  }

  // ---------------------------------------------------------------------
  // Tag keys and values

  /** `tag_key`: the maximal non-empty run of bytes other than space, `;`
      and `=`. */
  function TagKey(i: Input): (r: IResult<Input>)
    ensures r.Ok? <==> |i| > 0 && IsTagKeyByte(i[0])
    ensures r.Ok? ==> r.out + r.rest == i && |r.out| == Span(IsTagKeyByte, i)
  {
    TakeWhile1(IsTagKeyByte, i)
  }

  /** `terminated(hostname, tag("/"))`: a vendor prefix of a tag key. */
  function VendorPrefix(i: Input): IResult<Input>
  {
    match Hostname(i)
    case Err => Err
    case Ok(rest, host) =>
      match Tag([SLASH], rest)
      case Err => Err
      case Ok(rest', _) => Ok(rest', host)
  }

  /** The optional vendor prefix of `tag_key_strict` never consumes a byte. */
  lemma VendorPrefixNeverConsumes(i: Input)
    ensures Opt(VendorPrefix(i), i) == Ok(i, None)
  {
    HostnameNeverSucceeds(i);
  }

  /** `tag_key_strict`: an optional `+`, an optional vendor prefix, then a
      `lower_digit_hyphen` run; what follows that run is not examined. */
  function TagKeyStrict(i: Input): IResult<Input>
  {
    var rest := Opt(Tag([PLUS], i), i).rest;
    var rest' := Opt(VendorPrefix(rest), rest).rest;
    LowerDigitHyphen(rest')
  }

  /** The key with at most one leading `+` dropped. */
  function KeyBody(k: Input): Input
  {
    if |k| > 0 && k[0] == PLUS then k[1..] else k
  }

  /** `is_valid_tag_key`: whether `tag_key_strict` succeeds. */
  predicate IsValidTagKey(k: Input)
  {
    TagKeyStrict(k).Ok?
  }

  /** A key is accepted exactly when, after dropping one leading `+`, it is
      non-empty and starts with a `[a-z0-9-]` byte; the bytes after the first
      are never checked. */
  lemma ValidTagKeyIff(k: Input)
    ensures IsValidTagKey(k) <==> |KeyBody(k)| > 0 && IsLowerDigitHyphen(KeyBody(k)[0])
  {
    var rest := Opt(Tag([PLUS], k), k).rest;
    assert rest == KeyBody(k) by {
      if |k| > 0 && k[0] == PLUS {
        assert [PLUS] <= k;
      }
    }
    VendorPrefixNeverConsumes(rest);
  }

  /** `tag_value`: the maximal non-empty run of non-space bytes. */
  function TagValue(i: Input): (r: IResult<Input>)
    ensures r.Ok? <==> |i| > 0 && i[0] != SP
    ensures r.Ok? ==> r.out + r.rest == i && |r.out| > 0
    ensures r.Ok? ==> forall k :: 0 <= k < |r.out| ==> r.out[k] != SP
    ensures r.Ok? ==> r.rest == [] || r.rest[0] == SP
  {
    TakeWhile1(c => c != SP, i)
  }

  /** `tag_value_strict`: the maximal non-empty run of non-control bytes. */
  function TagValueStrict(i: Input): (r: IResult<Input>)
    ensures r.Ok? <==> |i| > 0 && !IsControl(i[0])
    ensures r.Ok? ==> r.out + r.rest == i && |r.out| > 0
    ensures r.Ok? ==> forall k :: 0 <= k < |r.out| ==> !IsControl(r.out[k])
    ensures r.Ok? ==> r.rest == [] || IsControl(r.rest[0])
  {
    TakeWhile1(c => !IsControl(c), i)
  }

  /** `is_valid_tag_value`: a value is accepted exactly when it is non-empty
      and its first byte is not a control byte. */
  function IsValidTagValue(v: Input): (r: bool)
    ensures r <==> |v| > 0 && !IsControl(v[0])
  {
    TagValueStrict(v).Ok?
  }

  // ---------------------------------------------------------------------
  // The tag segment

  /** A key as `tag_key` yields it: non-empty, free of space, `;` and `=`. */
  predicate IsBareKey(k: Input)
  {
    |k| > 0 && forall j :: 0 <= j < |k| ==> IsTagKeyByte(k[j])
  }

  /** No space and no tab. */
  predicate NoSpaceOrTab(s: Input)
  {
    forall j :: 0 <= j < |s| ==> !IsSpace(s[j])
  }

  /** `delimited(tag("@"), take_till(is_space), tag(" "))`: the text between
      a leading `@` and the first space or tab, which must be a space. */
  function TagSegment(i: Input): (r: IResult<Input>)
    ensures r.Ok? ==> i == [AT] + r.out + [SP] + r.rest && NoSpaceOrTab(r.out)
  {
    match Tag([AT], i)
    case Err => Err
    case Ok(i1, _) =>
      var inner := TakeTill(IsSpace, i1);
      match Tag([SP], inner.rest)
      case Err => Err
      case Ok(i2, _) => Ok(i2, inner.out)
  }

  /** Every line `@seg rest` with no space or tab in `seg` is accepted, with
      `seg` as the segment and `rest` left over. */
  lemma TagSegmentAccepts(seg: Input, rest: Input)
    requires NoSpaceOrTab(seg)
    ensures TagSegment([AT] + seg + [SP] + rest) == Ok(rest, seg)
  {
    var i := [AT] + seg + [SP] + rest;
    assert Tag([AT], i) == Ok(seg + [SP] + rest, [AT]) by {
      assert [AT] <= i;
      assert i == [AT] + (seg + [SP] + rest);
    }
    TakeTillStopsAt(IsSpace, seg, SP, rest);
    assert Tag([SP], [SP] + rest) == Ok(rest, [SP]);
  }

  /** The entry parser the iterator of `tags` runs:
      `terminated(pair(tag_key, opt(pair(tag("="), tag_value))), tag(";"))`,
      keeping the key and the optional value. */
  function TagEntry(i: Input): (r: IResult<(Input, Option<Input>)>)
    ensures r.Ok? <==> (var n := Span(IsTagKeyByte, i); 0 < n < |i| && i[n] == SEMI)
    ensures r.Ok? ==> r.out.1 == None && IsBareKey(r.out.0)
    ensures r.Ok? ==> |r.out.0| == Span(IsTagKeyByte, i)
    ensures r.Ok? ==> i == r.out.0 + [SEMI] + r.rest
  {
    match TagKey(i)
    case Err => Err
    case Ok(i1, key) =>
      var v := Opt(TagAssignment(i1), i1);
      match Tag([SEMI], v.rest)
      case Err => Err
      case Ok(i2, _) => Ok(i2, (key, v.out))
  }

  /** `pair(tag("="), tag_value)`, keeping the value. The value runs to the
      next space, so what it leaves never starts with `;`. */
  function TagAssignment(i: Input): (r: IResult<Input>)
    ensures r.Ok? <==> |i| > 1 && i[0] == EQ && i[1] != SP
    ensures r.Ok? ==> i == [EQ] + r.out + r.rest && |r.out| > 0
    ensures r.Ok? ==> forall k :: 0 <= k < |r.out| ==> r.out[k] != SP
    ensures r.Ok? ==> r.rest == [] || r.rest[0] == SP
  {
    match Tag([EQ], i)
    case Err => Err
    case Ok(i1, _) => TagValue(i1)
  }

  /** A `key=value` entry is never accepted, whatever follows the `=`. */
  lemma ValuedEntryNeverParses(key: Input, tail: Input)
    requires IsBareKey(key)
    ensures TagEntry(key + [EQ] + tail).Err?
  {
    SpanStopsAt(IsTagKeyByte, key, EQ, tail);
  }

  /** So a segment that starts with a `key=value` entry yields no entry at all. */
  lemma ValuedSegmentHasNoEntries(key: Input, tail: Input)
    requires IsBareKey(key)
    ensures Entries(key + [EQ] + tail) == []
  {
    ValuedEntryNeverParses(key, tail);
  }

  /** A final entry without its `;` is never accepted. */
  lemma UnterminatedEntryNeverParses(key: Input)
    requires IsBareKey(key)
    ensures TagEntry(key).Err?
  {
    SpanAll(IsTagKeyByte, key);
  }

  /** A bare key followed by `;` is always accepted. */
  lemma BareEntryParses(key: Input, tail: Input)
    requires IsBareKey(key)
    ensures TagEntry(key + [SEMI] + tail) == Ok(tail, (key, None))
  {
    SpanStopsAt(IsTagKeyByte, key, SEMI, tail);
    var i := key + [SEMI] + tail;
    assert i[|key|] == SEMI;
    var r := TagEntry(i);
    assert r.out.0 == i[..|key|] == key;
    assert r.rest == i[|key| + 1..] == tail;
  }

  /** The entries the iterator yields from cursor `c`, in order: it applies
      the entry parser until that first fails. */
  function Entries(c: Input): (es: seq<(Input, Option<Input>)>)
    ensures forall j :: 0 <= j < |es| ==> es[j].1 == None && IsBareKey(es[j].0)
    decreases |c|
  {
    match TagEntry(c)
    case Err => []
    case Ok(rest, e) => [e] + Entries(rest)
  }

  /** The keys of a sequence of entries, in order. */
  function EntryKeys(es: seq<(Input, Option<Input>)>): (ks: seq<Input>)
  {
    if es == [] then [] else [es[0].0] + EntryKeys(es[1..])
  }

  lemma {:induction false} EntryKeysAppend(es: seq<(Input, Option<Input>)>, e: (Input, Option<Input>))
    ensures EntryKeys(es + [e]) == EntryKeys(es) + [e.0]
  {
    if es == [] {
      assert es + [e] == [e];
    } else {
      assert (es + [e])[1..] == es[1..] + [e];
      EntryKeysAppend(es[1..], e);
    }
  }

  /** The keys written back as `k1;k2;...;kn;`. */
  function Joined(ks: seq<Input>): Input
  {
    if ks == [] then [] else ks[0] + [SEMI] + Joined(ks[1..])
  }

  /** The yielded entries are a run of `;`-terminated bare keys at the start
      of `c`, and the entry parser fails on what follows that run. */
  lemma {:induction false} EntriesAreLeadingRun(c: Input)
    ensures Joined(EntryKeys(Entries(c))) <= c
    ensures TagEntry(c[|Joined(EntryKeys(Entries(c)))|..]).Err?
    decreases |c|
  {
    match TagEntry(c)
    case Err =>
    case Ok(rest, e) =>
      EntriesAreLeadingRun(rest);
      var ks := EntryKeys(Entries(rest));
      assert Joined(EntryKeys(Entries(c))) == e.0 + [SEMI] + Joined(ks) by {
        assert EntryKeys(Entries(c)) == [e.0] + ks;
        assert ([e.0] + ks)[1..] == ks;
      }
      PrefixShift(e.0 + [SEMI], Joined(ks), rest);
  }

  /** Proof-splitting helper for `EntriesAreLeadingRun`: a common prefix keeps the prefix order. */
  lemma PrefixShift(p: Input, a: Input, b: Input)
    requires a <= b
    ensures p + a <= p + b && (p + b)[|p + a|..] == b[|a|..]
  {
    assert (p + b)[..|p + a|] == p + a;
  }

  /** Conversely, a run of `;`-terminated bare keys followed by something
      the entry parser rejects yields exactly those keys, each without a
      value. */
  lemma {:induction false} EntriesOfLeadingRun(ks: seq<Input>, tail: Input)
    requires forall j :: 0 <= j < |ks| ==> IsBareKey(ks[j])
    requires TagEntry(tail).Err?
    ensures EntryKeys(Entries(Joined(ks) + tail)) == ks
  {
    if ks == [] {
      assert Joined(ks) + tail == tail;
    } else {
      var tail' := Joined(ks[1..]) + tail;
      assert Joined(ks) + tail == ks[0] + [SEMI] + tail';
      BareEntryParses(ks[0], tail');
      EntriesOfLeadingRun(ks[1..], tail);
      var es := Entries(tail');
      assert Entries(Joined(ks) + tail) == [(ks[0], None)] + es;
      assert EntryKeys([(ks[0], None)] + es) == [ks[0]] + EntryKeys(es) by {
        assert ([(ks[0], None)] + es)[1..] == es;
      }
      assert ks == [ks[0]] + ks[1..];
    }
  }

  /** The `filter_map` closure of `tags`: drop an entry whose key, or whose
      value when there is one, is invalid; a bare key gets the empty value. */
  function KeepEntry(e: (Input, Option<Input>)): (r: Option<(Input, Input)>)
    ensures r.Some? <==> IsValidTagKey(e.0) && (e.1.None? || IsValidTagValue(e.1.value))
    ensures r.Some? ==> r.value.0 == e.0
    ensures r.Some? ==> r.value.1 == if e.1.Some? then e.1.value else []
  {
    if !IsValidTagKey(e.0) then None
    else match e.1
      case Some(val) => if !IsValidTagValue(val) then None else Some((e.0, val))
      case None => Some((e.0, e.0[0..0]))
  }

  /** The entries that `filter_map` lets through, in order. */
  function FilterMap(es: seq<(Input, Option<Input>)>): seq<(Input, Input)>
  {
    if es == [] then []
    else
      var kept := KeepEntry(es[|es| - 1]);
      FilterMap(es[..|es| - 1]) + (if kept.Some? then [kept.value] else [])
  }

  /** `collect` into a `HashMap`: pairs are inserted in order, so a later
      pair with the same key replaces an earlier one. */
  function Collect(kvs: seq<(Input, Input)>): map<Input, Input>
  {
    if kvs == [] then map[]
    else Collect(kvs[..|kvs| - 1])[kvs[|kvs| - 1].0 := kvs[|kvs| - 1].1]
  }

  /** `tags`: the segment after `@` up to the first space, split into
      entries, filtered and collected into a map. */
  function ParseTags(i: Input): IResult<map<Input, Input>>
  {
    match TagSegment(i)
    case Err => Err
    case Ok(rest, inner) => Ok(rest, Collect(FilterMap(Entries(inner))))
  }

  /** One more yielded entry: the map gains that entry if it is kept. */
  lemma CollectStep(es: seq<(Input, Option<Input>)>, e: (Input, Option<Input>))
    ensures Collect(FilterMap(es + [e])) ==
      match KeepEntry(e)
      case Some(kv) => Collect(FilterMap(es))[kv.0 := kv.1]
      case None => Collect(FilterMap(es))
  {
    assert (es + [e])[..|es|] == es;
    assert (es + [e])[|es|] == e;
    var fm := FilterMap(es);
    match KeepEntry(e)
    case Some(kv) =>
      assert FilterMap(es + [e]) == fm + [kv];
      assert (fm + [kv])[..|fm|] == fm;
    case None =>
      assert FilterMap(es + [e]) == fm + [];
      assert fm + [] == fm;
  }

  /** One step of the iterator: the entry it yields joins those yielded so
      far, and the cursor moves past it. */
  lemma EntriesStep(yielded: seq<(Input, Option<Input>)>, cursor: Input, inner: Input)
    requires TagEntry(cursor).Ok?
    requires yielded + Entries(cursor) == Entries(inner)
    ensures (yielded + [TagEntry(cursor).out]) + Entries(TagEntry(cursor).rest) == Entries(inner)
  {
    var step := TagEntry(cursor);
    EntriesUnfold(cursor);
    SeqAssoc(yielded, [step.out], Entries(step.rest));
  }

  /** Proof-splitting helper for `EntriesStep`: one unfolding of `Entries`. */
  lemma EntriesUnfold(c: Input)
    requires TagEntry(c).Ok?
    ensures Entries(c) == [TagEntry(c).out] + Entries(TagEntry(c).rest)
  {
  }

  /** Proof-splitting helper for `EntriesStep`: regrouping a concatenation. */
  lemma SeqAssoc<T>(a: seq<T>, b: seq<T>, c: seq<T>)
    ensures (a + b) + c == a + (b + c)
  {
  }

  /** `tags` as src/parse.rs runs it: an iterator over the entry parser whose
      cursor advances entry by entry, each yielded entry filtered and
      inserted into the map as it comes. */
  method Tags(i: Input) returns (r: IResult<map<Input, Input>>)
    ensures r == ParseTags(i)
  {
    var segment := TagSegment(i);
    if segment.Err? {
      return Err;
    }
    var inner := segment.out;
    var cursor := inner;
    var m: map<Input, Input> := map[];
    ghost var yielded: seq<(Input, Option<Input>)> := [];
    while TagEntry(cursor).Ok?
      invariant yielded + Entries(cursor) == Entries(inner)
      invariant m == Collect(FilterMap(yielded))
      decreases |cursor|
    {
      var step := TagEntry(cursor);
      var kept := KeepEntry(step.out);
      if kept.Some? {
        m := m[kept.value.0 := kept.value.1];
      }
      assert m == Collect(FilterMap(yielded + [step.out])) by {
        CollectStep(yielded, step.out);
      }
      EntriesStep(yielded, cursor, inner);
      yielded := yielded + [step.out];
      cursor := step.rest;
    }
    assert yielded == Entries(inner) by {
      assert Entries(cursor) == [];
      assert yielded + [] == yielded;
    }
    r := Ok(segment.rest, m);
  }

  /** `tags` succeeds exactly on lines `@seg rest` with no space or tab in
      `seg`, and then leaves exactly `rest`. */
  lemma ParseTagsFraming(i: Input)
    ensures ParseTags(i).Ok? <==> TagSegment(i).Ok?
    ensures ParseTags(i).Ok? ==>
      var rest := ParseTags(i).rest;
      var seg := i[1..|i| - |rest| - 1];
      i == [AT] + seg + [SP] + rest && NoSpaceOrTab(seg)
  {
    if TagSegment(i).Ok? {
      var seg := TagSegment(i).out;
      var rest := TagSegment(i).rest;
      assert i[1..|i| - |rest| - 1] == seg;
    }
  }

  /** Every line `@seg rest` with no space or tab in `seg` is accepted by
      `tags`, which leaves `rest` and collects the entries of `seg`. */
  lemma ParseTagsOfLine(seg: Input, rest: Input)
    requires NoSpaceOrTab(seg)
    ensures ParseTags([AT] + seg + [SP] + rest) == Ok(rest, Collect(FilterMap(Entries(seg))))
  {
    TagSegmentAccepts(seg, rest);
  }

  /** Whatever the line, the map `tags` returns holds exactly the valid keys
      among the entries the iterator yields from the segment, each with the
      empty value. */
  lemma ParseTagsMap(i: Input)
    requires ParseTags(i).Ok?
    ensures var seg := TagSegment(i).out; var m := ParseTags(i).out;
      && (forall k :: k in m <==> k in EntryKeys(Entries(seg)) && IsValidTagKey(k))
      && (forall k :: k in m ==> m[k] == [])
  {
    CollectBareEntries(Entries(TagSegment(i).out));
  }

  /** When every entry is bare, the collected map holds exactly the valid
      keys, each with the empty value. */
  lemma {:induction false} CollectBareEntries(es: seq<(Input, Option<Input>)>)
    requires forall j :: 0 <= j < |es| ==> es[j].1 == None
    ensures forall k :: k in Collect(FilterMap(es)) <==> k in EntryKeys(es) && IsValidTagKey(k)
    ensures forall k :: k in Collect(FilterMap(es)) ==> Collect(FilterMap(es))[k] == []
  {
    if es != [] {
      var front := es[..|es| - 1];
      var last := es[|es| - 1];
      CollectBareEntries(front);
      var m := Collect(FilterMap(front));
      assert Collect(FilterMap(es)) == if IsValidTagKey(last.0) then m[last.0 := []] else m by {
        assert es == front + [last];
        CollectStep(front, last);
        assert last.1 == None;
      }
      assert EntryKeys(es) == EntryKeys(front) + [last.0] by {
        assert es == front + [last];
        EntryKeysAppend(front, last);
      }
    }
  }

  /** The map of a line `@seg rest`: its keys are exactly the valid keys among
      the leading run of `;`-terminated bare keys of `seg` (collection stops at
      the first empty entry, the first entry with `=`, or an unterminated
      final entry), and every value is empty. */
  lemma TagsMapOfRun(ks: seq<Input>, tail: Input, rest: Input)
    requires forall j :: 0 <= j < |ks| ==> IsBareKey(ks[j])
    requires TagEntry(tail).Err?
    requires NoSpaceOrTab(Joined(ks) + tail)
    ensures ParseTags([AT] + (Joined(ks) + tail) + [SP] + rest).Ok?
    ensures var r := ParseTags([AT] + (Joined(ks) + tail) + [SP] + rest);
      && r.rest == rest
      && (forall k :: k in r.out <==> k in ks && IsValidTagKey(k))
      && (forall k :: k in r.out ==> r.out[k] == [])
  {
    var seg := Joined(ks) + tail;
    TagSegmentAccepts(seg, rest);
    EntriesOfLeadingRun(ks, tail);
    CollectBareEntries(Entries(seg));
  }
}
