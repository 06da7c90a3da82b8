/** The one-pass size check that runs before a JSON document is parsed (`src/parser_limits.rs`),
    and the trees whose texts it judges. */
module ParserLimits {
  import opened Numerics
  import opened Wrappers

  const MAX_SLICE_LENGTH: nat := 0x7FFF_FFFF_FFFF_FFFF
  const MAX_USIZE: nat := 0xFFFF_FFFF_FFFF_FFFF

  type Bytes = seq<Byte>

  datatype Limits = Limits(
    maxInputBytes: U64,
    maxNestingDepth: U64,
    maxElements: U64,
    maxStringBytes: U64,
    maxAllocationBytes: U64)

  datatype LimitError = InputBytes | AllocationBudget | NestingDepth | ElementCount | StringBytes

  const QUOTE: Byte := 0x22
  const COMMA: Byte := 0x2C
  const COLON: Byte := 0x3A
  const OPEN_BRACKET: Byte := 0x5B
  const BACKSLASH: Byte := 0x5C
  const CLOSE_BRACKET: Byte := 0x5D
  const OPEN_BRACE: Byte := 0x7B
  const CLOSE_BRACE: Byte := 0x7D

  predicate Opens(byte: Byte) {
    byte == OPEN_BRACE || byte == OPEN_BRACKET
  }

  predicate Closes(byte: Byte) {
    byte == CLOSE_BRACE || byte == CLOSE_BRACKET
  }

  /** Bytes the check passes over outside a string. */
  predicate Plain(byte: Byte) {
    byte != QUOTE && byte != COMMA && !Opens(byte) && !Closes(byte)
  }

  // ---- The scan as a function -----------------------------------------------------------------------

  datatype Scan = Scan(depth: nat, inString: bool, escaped: bool, stringBytes: nat, elements: nat)

  const START := Scan(0, false, false, 0, 0)

  function InString(s: Scan, byte: Byte, limits: Limits): Result<Scan, LimitError> {
    var next :=
      if s.escaped then s.(escaped := false, stringBytes := s.stringBytes + 1)
      else if byte == BACKSLASH then s.(escaped := true, stringBytes := s.stringBytes + 1)
      else if byte == QUOTE then s.(inString := false, stringBytes := 0)
      else s.(stringBytes := s.stringBytes + 1);
    if next.stringBytes > limits.maxStringBytes then Err(StringBytes) else Ok(next)
  }

  function Outside(s: Scan, byte: Byte, limits: Limits): Result<Scan, LimitError> {
    if byte == QUOTE then Ok(s.(inString := true))
    else if Opens(byte) then
      if s.depth + 1 > limits.maxNestingDepth then Err(NestingDepth)
      else if s.elements + 1 > limits.maxElements then Err(ElementCount)
      else Ok(s.(depth := s.depth + 1, elements := s.elements + 1))
    else if Closes(byte) then Ok(s.(depth := SaturatingSub(s.depth, 1)))
    else if byte == COMMA then
      if s.elements + 1 > limits.maxElements then Err(ElementCount)
      else Ok(s.(elements := s.elements + 1))
    else Ok(s)
  }

  function OneByte(s: Scan, byte: Byte, limits: Limits): Result<Scan, LimitError> {
    if s.inString then InString(s, byte, limits) else Outside(s, byte, limits)
  }

  /** What reading `bytes` from state `s` ends in: a state, or the first limit exceeded. */
  function Scanned(s: Scan, bytes: Bytes, limits: Limits): Result<Scan, LimitError>
    decreases |bytes|
  {
    if |bytes| == 0 then Ok(s)
    else match OneByte(s, bytes[0], limits)
      case Err(error) => Err(error)
      case Ok(next) => Scanned(next, bytes[1..], limits)
  }

  // ---- The check ---------------------------------------------------------------------------------------

  function SizeError(length: nat, limits: Limits): Option<LimitError> {
    if length > limits.maxInputBytes then Some(InputBytes)
    else if length * 2 > limits.maxAllocationBytes then Some(AllocationBudget)
    else None
  }

  function Verdict(bytes: Bytes, limits: Limits): Result<(), LimitError> {
    var size := SizeError(|bytes|, limits);
    if size.Some? then Err(size.value)
    else match Scanned(START, bytes, limits)
      case Err(error) => Err(error)
      case Ok(_) => Ok(())
  }

  function SaturatingSucc(value: U64): U64 {
    if value < MAX_USIZE then value + 1 else value
  }

  method ValidateInputSize(bytes: Bytes, limits: Limits) returns (error: Option<LimitError>)
    requires |bytes| <= MAX_SLICE_LENGTH
    ensures error == SizeError(|bytes|, limits)
  {
    if |bytes| > limits.maxInputBytes {
      return Some(InputBytes);
    }
    if Min(|bytes| * 2, MAX_USIZE) > limits.maxAllocationBytes {
      return Some(AllocationBudget);
    }
    return None;
  }

  /** Saturation never shows: every counter is bounded by the bytes read so far. */
  method ValidateJsonEnvelope(bytes: Bytes, limits: Limits) returns (result: Result<(), LimitError>)
    requires |bytes| <= MAX_SLICE_LENGTH
    ensures result == Verdict(bytes, limits)
  {
    var size := ValidateInputSize(bytes, limits);
    if size.Some? {
      return Err(size.value);
    }
    var depth: U64, inString, escaped, stringBytes: U64, elements: U64 := 0, false, false, 0, 0;
    var i := 0;
    while i < |bytes|
      invariant 0 <= i <= |bytes|
      invariant depth <= i && stringBytes <= i && elements <= i
      invariant Scanned(START, bytes, limits) ==
                Scanned(Scan(depth, inString, escaped, stringBytes, elements), bytes[i..], limits)
    {
      var byte := bytes[i];
      i := i + 1;
      if inString {
        if escaped {
          escaped := false;
          stringBytes := SaturatingSucc(stringBytes);
        } else if byte == BACKSLASH {
          escaped := true;
          stringBytes := SaturatingSucc(stringBytes);
        } else if byte == QUOTE {
          inString := false;
          stringBytes := 0;
        } else {
          stringBytes := SaturatingSucc(stringBytes);
        }
        if stringBytes > limits.maxStringBytes {
          return Err(StringBytes);
        }
        continue;
      }
      if byte == QUOTE {
        inString := true;
      } else if Opens(byte) {
        depth := SaturatingSucc(depth);
        elements := SaturatingSucc(elements);
        if depth > limits.maxNestingDepth {
          return Err(NestingDepth);
        }
        if elements > limits.maxElements {
          return Err(ElementCount);
        }
      } else if Closes(byte) {
        depth := SaturatingSub(depth, 1);
      } else if byte == COMMA {
        elements := SaturatingSucc(elements);
        if elements > limits.maxElements {
          return Err(ElementCount);
        }
      }
    }
    return Ok(());
  }

  // ---- Documents as trees ---------------------------------------------------------------------------------

  type PlainByte = byte: Byte | Plain(byte) witness 0x20
  type RawByte = byte: Byte | byte != QUOTE && byte != BACKSLASH witness 0x20

  /** One unit of a string body, as written: a byte, or a backslash and the byte after it. */
  datatype StringUnit = Raw(byte: RawByte) | Escape(escaped: Byte)

  /** A value with the white space around it. A scalar is a number or one of the three
      literal names; `space` is what an empty array or object holds. */
  datatype Json = Json(before: seq<PlainByte>, value: Value, after: seq<PlainByte>)

  datatype Value =
    | Scalar(text: seq<PlainByte>)
    | Text(body: seq<StringUnit>)
    | Array(space: seq<PlainByte>, values: Values)
    | Object(space: seq<PlainByte>, members: Members)

  datatype Values = NoValues | AndValue(head: Json, tail: Values)

  datatype Members = NoMembers | AndMember(member: Member, rest: Members)

  datatype Member = Member(before: seq<PlainByte>, key: seq<StringUnit>, after: seq<PlainByte>, value: Json)

  // ---- Their texts

  function BodyText(body: seq<StringUnit>): Bytes {
    if |body| == 0 then []
    else match body[0]
      case Raw(byte) => [byte] + BodyText(body[1..])
      case Escape(byte) => [BACKSLASH, byte] + BodyText(body[1..])
  }

  function StringText(body: seq<StringUnit>): Bytes {
    [QUOTE] + BodyText(body) + [QUOTE]
  }

  function JsonText(json: Json): Bytes {
    json.before + ValueText(json.value) + json.after
  }

  function ValueText(value: Value): Bytes {
    match value
    case Scalar(text) => text
    case Text(body) => StringText(body)
    case Array(space, values) => [OPEN_BRACKET] + (space + ValuesText(values)) + [CLOSE_BRACKET]
    case Object(space, members) => [OPEN_BRACE] + (space + MembersText(members)) + [CLOSE_BRACE]
  }

  function ValuesText(values: Values): Bytes {
    match values
    case NoValues => []
    case AndValue(head, tail) =>
      JsonText(head) + if tail.NoValues? then [] else [COMMA] + ValuesText(tail)
  }

  function MembersText(members: Members): Bytes {
    match members
    case NoMembers => []
    case AndMember(member, rest) =>
      MemberText(member) + if rest.NoMembers? then [] else [COMMA] + MembersText(rest)
  }

  function MemberText(member: Member): Bytes {
    member.before + StringText(member.key) + (member.after + [COLON]) + JsonText(member.value)
  }

  // ---- What they ask of the limits

  /** Nesting depth, containers, commas, and the longest string body as written. */
  datatype Need = Need(depth: nat, containers: nat, commas: nat, widest: nat) {
    function And(other: Need): Need {
      Need(Max(depth, other.depth), containers + other.containers, commas + other.commas, Max(widest, other.widest))
    }
    function Enclosed(): Need {
      this.(depth := depth + 1, containers := containers + 1)
    }
  }

  const NOTHING := Need(0, 0, 0, 0)
  const ONE_COMMA := Need(0, 0, 1, 0)

  function JsonNeed(json: Json): Need {
    ValueNeed(json.value)
  }

  function ValueNeed(value: Value): Need {
    match value
    case Scalar(_) => NOTHING
    case Text(body) => Need(0, 0, 0, |BodyText(body)|)
    case Array(_, values) => ValuesNeed(values).Enclosed()
    case Object(_, members) => MembersNeed(members).Enclosed()
  }

  function ValuesNeed(values: Values): Need {
    match values
    case NoValues => NOTHING
    case AndValue(head, tail) =>
      JsonNeed(head).And(if tail.NoValues? then NOTHING else ONE_COMMA.And(ValuesNeed(tail)))
  }

  function MembersNeed(members: Members): Need {
    match members
    case NoMembers => NOTHING
    case AndMember(member, rest) =>
      MemberNeed(member).And(if rest.NoMembers? then NOTHING else ONE_COMMA.And(MembersNeed(rest)))
  }

  function MemberNeed(member: Member): Need {
    Need(0, 0, 0, |BodyText(member.key)|).And(JsonNeed(member.value))
  }

  // ---- Scanning a text ---------------------------------------------------------------------------------------

  predicate Calm(s: Scan, limits: Limits) {
    !s.inString && !s.escaped && s.stringBytes == 0 && s.depth <= limits.maxNestingDepth && s.elements <= limits.maxElements
  }

  predicate Fits(s: Scan, need: Need, limits: Limits) {
    && s.depth + need.depth <= limits.maxNestingDepth
    && s.elements + need.containers + need.commas <= limits.maxElements
    && need.widest <= limits.maxStringBytes
  }

  /** The error names a limit that is indeed exceeded. */
  predicate Blames(error: LimitError, s: Scan, need: Need, limits: Limits) {
    match error
    case NestingDepth => s.depth + need.depth > limits.maxNestingDepth
    case ElementCount => s.elements + need.containers + need.commas > limits.maxElements
    case StringBytes => need.widest > limits.maxStringBytes
    case _ => false
  }

  function After(s: Scan, need: Need): Scan {
    s.(elements := s.elements + need.containers + need.commas)
  }

  /** Read from `s`, the text is worth exactly `need`. */
  predicate Reads(s: Scan, text: Bytes, need: Need, limits: Limits) {
    match Scanned(s, text, limits)
    case Ok(next) => Fits(s, need, limits) && next == After(s, need)
    case Err(error) => Blames(error, s, need, limits)
  }

  lemma {:induction false} ScannedAppend(s: Scan, a: Bytes, b: Bytes, limits: Limits)
    ensures Scanned(s, a + b, limits) ==
            match Scanned(s, a, limits) case Err(error) => Err(error) case Ok(next) => Scanned(next, b, limits)
    decreases |a|
  {
    if |a| == 0 {
      assert a + b == b;
    } else {
      assert (a + b)[1..] == a[1..] + b;
      var step := OneByte(s, a[0], limits);
      if step.Ok? {
        ScannedAppend(step.value, a[1..], b, limits);
      }
    }
  }

  lemma OneByteScanned(s: Scan, byte: Byte, limits: Limits)
    ensures Scanned(s, [byte], limits) == OneByte(s, byte, limits)
  {
  }

  lemma Concatenated(s: Scan, a: Bytes, need: Need, b: Bytes, more: Need, limits: Limits)
    requires Calm(s, limits) && Reads(s, a, need, limits)
    requires Fits(s, need, limits) ==> Reads(After(s, need), b, more, limits)
    ensures Reads(s, a + b, need.And(more), limits)
  {
    ScannedAppend(s, a, b, limits);
    hide Scanned;
  }

  lemma {:induction false} PlainReads(s: Scan, text: seq<PlainByte>, limits: Limits)
    requires Calm(s, limits)
    ensures Reads(s, text, NOTHING, limits)
  {
    if |text| > 0 {
      PlainReads(s, text[1..], limits);
    }
  }

  /** A string body adds its written length to the count, or exceeds the limit. */
  lemma {:induction false} BodyScanned(s: Scan, body: seq<StringUnit>, limits: Limits)
    requires s.inString && !s.escaped && s.stringBytes <= limits.maxStringBytes
    ensures Scanned(s, BodyText(body), limits) ==
            if s.stringBytes + |BodyText(body)| > limits.maxStringBytes then Err(StringBytes)
            else Ok(s.(stringBytes := s.stringBytes + |BodyText(body)|))
    decreases |body|
  {
    if |body| > 0 {
      var rest := BodyText(body[1..]);
      var first := if body[0].Raw? then [body[0].byte] else [BACKSLASH, body[0].escaped];
      assert BodyText(body) == first + rest;
      ScannedAppend(s, first, rest, limits);
      UnitScanned(s, body[0], limits);
      hide Scanned;
      if s.stringBytes + |first| <= limits.maxStringBytes {
        BodyScanned(s.(stringBytes := s.stringBytes + |first|), body[1..], limits);
      }
    }
  }

  lemma UnitScanned(s: Scan, unit: StringUnit, limits: Limits)
    requires s.inString && !s.escaped && s.stringBytes <= limits.maxStringBytes
    ensures var text: Bytes := if unit.Raw? then [unit.byte] else [BACKSLASH, unit.escaped];
            Scanned(s, text, limits) ==
            if s.stringBytes + |text| > limits.maxStringBytes then Err(StringBytes)
            else Ok(s.(stringBytes := s.stringBytes + |text|))
  {
    if unit.Raw? {
      OneByteScanned(s, unit.byte, limits);
    } else {
      var text := [BACKSLASH, unit.escaped];
      assert text[1..] == [unit.escaped];
      assert Scanned(s, text, limits) ==
        match InString(s, BACKSLASH, limits) case Err(error) => Err(error) case Ok(next) => Scanned(next, [unit.escaped], limits);
      if InString(s, BACKSLASH, limits).Ok? {
        OneByteScanned(InString(s, BACKSLASH, limits).value, unit.escaped, limits);
      }
    }
  }

  lemma StringReads(s: Scan, body: seq<StringUnit>, limits: Limits)
    requires Calm(s, limits)
    ensures Reads(s, StringText(body), Need(0, 0, 0, |BodyText(body)|), limits)
  {
    var text := BodyText(body);
    var inside := s.(inString := true);
    OneByteScanned(s, QUOTE, limits);
    ScannedAppend(s, [QUOTE], text, limits);
    ScannedAppend(s, [QUOTE] + text, [QUOTE], limits);
    BodyScanned(inside, body, limits);
    OneByteScanned(inside.(stringBytes := |text|), QUOTE, limits);
    hide Scanned, BodyText;
  }

  lemma CommaReads(s: Scan, limits: Limits)
    requires Calm(s, limits)
    ensures Reads(s, [COMMA], ONE_COMMA, limits)
  {
    OneByteScanned(s, COMMA, limits);
  }

  lemma EnclosedReads(s: Scan, open: Byte, inner: Bytes, close: Byte, need: Need, limits: Limits)
    requires Calm(s, limits) && Opens(open) && Closes(close)
    requires var inside := s.(depth := s.depth + 1, elements := s.elements + 1);
             Calm(inside, limits) ==> Reads(inside, inner, need, limits)
    ensures Reads(s, [open] + inner + [close], need.Enclosed(), limits)
  {
    var inside := s.(depth := s.depth + 1, elements := s.elements + 1);
    OneByteScanned(s, open, limits);
    ScannedAppend(s, [open], inner, limits);
    ScannedAppend(s, [open] + inner, [close], limits);
    OneByteScanned(After(inside, need), close, limits);
    hide Scanned;
  }

  lemma {:induction false} JsonReads(s: Scan, json: Json, limits: Limits)
    requires Calm(s, limits)
    ensures Reads(s, JsonText(json), JsonNeed(json), limits)
    decreases json
  {
    PlainReads(s, json.before, limits);
    ValueReads(s, json.value, limits);
    hide Reads, ValueText, ValueNeed;
    Concatenated(s, json.before, NOTHING, ValueText(json.value), ValueNeed(json.value), limits);
    if Fits(s, ValueNeed(json.value), limits) {
      PlainReads(After(s, ValueNeed(json.value)), json.after, limits);
    }
    Concatenated(s, json.before + ValueText(json.value), ValueNeed(json.value), json.after, NOTHING, limits);
  }

  lemma {:induction false} ValueReads(s: Scan, value: Value, limits: Limits)
    requires Calm(s, limits)
    ensures Reads(s, ValueText(value), ValueNeed(value), limits)
    decreases value
  {
    hide Reads, ValuesText, ValuesNeed, MembersText, MembersNeed, StringText, BodyText;
    var inside := s.(depth := s.depth + 1, elements := s.elements + 1);
    match value {
      case Scalar(text) => PlainReads(s, text, limits);
      case Text(body) => StringReads(s, body, limits);
      case Array(space, values) =>
        if Calm(inside, limits) {
          PlainReads(inside, space, limits);
          ValuesReads(inside, values, limits);
          Concatenated(inside, space, NOTHING, ValuesText(values), ValuesNeed(values), limits);
        }
        EnclosedReads(s, OPEN_BRACKET, space + ValuesText(values), CLOSE_BRACKET, ValuesNeed(values), limits);
      case Object(space, members) =>
        if Calm(inside, limits) {
          PlainReads(inside, space, limits);
          MembersReads(inside, members, limits);
          Concatenated(inside, space, NOTHING, MembersText(members), MembersNeed(members), limits);
        }
        EnclosedReads(s, OPEN_BRACE, space + MembersText(members), CLOSE_BRACE, MembersNeed(members), limits);
    }
  }

  /** A comma and what follows it. */
  lemma CommaThen(s: Scan, text: Bytes, need: Need, limits: Limits)
    requires Calm(s, limits)
    requires Fits(s, ONE_COMMA, limits) ==> Reads(After(s, ONE_COMMA), text, need, limits)
    ensures Reads(s, [COMMA] + text, ONE_COMMA.And(need), limits)
  {
    hide Reads;
    CommaReads(s, limits);
    Concatenated(s, [COMMA], ONE_COMMA, text, need, limits);
  }

  lemma {:induction false} ValuesReads(s: Scan, values: Values, limits: Limits)
    requires Calm(s, limits)
    ensures Reads(s, ValuesText(values), ValuesNeed(values), limits)
    decreases values
  {
    match values {
      case NoValues => PlainReads(s, [], limits);
      case AndValue(head, tail) =>
        hide Reads, JsonText, JsonNeed;
        JsonReads(s, head, limits);
        var next := After(s, JsonNeed(head));
        if Fits(s, JsonNeed(head), limits) {
          if tail.NoValues? {
            PlainReads(next, [], limits);
          } else {
            if Fits(next, ONE_COMMA, limits) {
              ValuesReads(After(next, ONE_COMMA), tail, limits);
            }
            CommaThen(next, ValuesText(tail), ValuesNeed(tail), limits);
          }
        }
        Concatenated(s, JsonText(head), JsonNeed(head),
                     if tail.NoValues? then [] else [COMMA] + ValuesText(tail),
                     if tail.NoValues? then NOTHING else ONE_COMMA.And(ValuesNeed(tail)), limits);
    }
  }

  lemma {:induction false} MembersReads(s: Scan, members: Members, limits: Limits)
    requires Calm(s, limits)
    ensures Reads(s, MembersText(members), MembersNeed(members), limits)
    decreases members
  {
    match members {
      case NoMembers => PlainReads(s, [], limits);
      case AndMember(member, rest) =>
        hide Reads, MemberText, MemberNeed;
        MemberReads(s, member, limits);
        var next := After(s, MemberNeed(member));
        if Fits(s, MemberNeed(member), limits) {
          if rest.NoMembers? {
            PlainReads(next, [], limits);
          } else {
            if Fits(next, ONE_COMMA, limits) {
              MembersReads(After(next, ONE_COMMA), rest, limits);
            }
            CommaThen(next, MembersText(rest), MembersNeed(rest), limits);
          }
        }
        Concatenated(s, MemberText(member), MemberNeed(member),
                     if rest.NoMembers? then [] else [COMMA] + MembersText(rest),
                     if rest.NoMembers? then NOTHING else ONE_COMMA.And(MembersNeed(rest)), limits);
    }
  }

  lemma {:induction false} MemberReads(s: Scan, member: Member, limits: Limits)
    requires Calm(s, limits)
    ensures Reads(s, MemberText(member), MemberNeed(member), limits)
    decreases member
  {
    var key := Need(0, 0, 0, |BodyText(member.key)|);
    var name := member.before + StringText(member.key);
    var gap := member.after + [COLON];
    hide Reads, StringText, BodyText, JsonText, JsonNeed;
    PlainReads(s, member.before, limits);
    StringReads(s, member.key, limits);
    Concatenated(s, member.before, NOTHING, StringText(member.key), key, limits);
    PlainReads(After(s, key), gap, limits);
    Concatenated(s, name, key, gap, NOTHING, limits);
    JsonReads(After(s, key), member.value, limits);
    Concatenated(s, name + gap, key, JsonText(member.value), JsonNeed(member.value), limits);
  }

  /** The bytes that count. */
  lemma StructuralBytes(byte: Byte)
    ensures Opens(byte) <==> byte == 0x7B || byte == 0x5B
    ensures Closes(byte) <==> byte == 0x7D || byte == 0x5D
    ensures Plain(byte) <==> !Opens(byte) && !Closes(byte) && byte != 0x22 && byte != 0x2C
  {
  }

  function Bare(value: Value): Json {
    Json([], value, [])
  }

  lemma BareText(value: Value)
    ensures JsonText(Bare(value)) == ValueText(value)
  {
  }

  lemma SampleString(body: seq<StringUnit>)
    requires |body| == 1
    ensures body[0] == Escape(0x22) ==> StringText(body) == [0x22, 0x5C, 0x22, 0x22]
    ensures body[0] == Raw(0x61) ==> StringText(body) == [0x22, 0x61, 0x22]
  {
    assert body[1..] == [];
    assert BodyText(body[1..]) == [];
  }

  /** The text of [1,"\\""], whose string is two bytes as written. */
  lemma SampleArray(one: seq<PlainByte>, quote: seq<StringUnit>)
    requires one == [0x31] && |quote| == 1 && quote[0] == Escape(0x22)
    ensures var list := Array([], AndValue(Bare(Scalar(one)), AndValue(Bare(Text(quote)), NoValues)));
            ValueText(list) == [0x5B, 0x31, 0x2C, 0x22, 0x5C, 0x22, 0x22, 0x5D]
  {
    SampleString(quote);
    BareText(Scalar(one));
    BareText(Text(quote));
    hide JsonText, StringText, BodyText;
    var tail := AndValue(Bare(Text(quote)), NoValues);
    assert ValuesText(tail) == [0x22, 0x5C, 0x22, 0x22];
    var all := AndValue(Bare(Scalar(one)), tail);
    assert ValuesText(all) == [0x31, 0x2C, 0x22, 0x5C, 0x22, 0x22];
    assert ValueText(Array([], all)) == [0x5B] + ValuesText(all) + [0x5D];
  }

  /** The text of {"a":1}. */
  lemma SampleObject(one: seq<PlainByte>, name: seq<StringUnit>)
    requires one == [0x31] && |name| == 1 && name[0] == Raw(0x61)
    ensures var outer := Object([], AndMember(Member([], name, [], Bare(Scalar(one))), NoMembers));
            ValueText(outer) == [0x7B, 0x22, 0x61, 0x22, 0x3A, 0x31, 0x7D]
  {
    SampleString(name);
    BareText(Scalar(one));
    hide JsonText, StringText, BodyText;
    var member := Member([], name, [], Bare(Scalar(one)));
    assert MemberText(member) == [0x22, 0x61, 0x22, 0x3A, 0x31];
    var members := AndMember(member, NoMembers);
    assert MembersText(members) == MemberText(member);
    assert ValueText(Object([], members)) == [0x7B] + MembersText(members) + [0x7D];
  }

  /** A document's text passes exactly when its size, nesting depth, containers plus commas,
      and every string body as written are within the limits; and an error names a limit
      that is exceeded. */
  lemma AcceptsExactlyWhatFits(json: Json, limits: Limits)
    ensures var text := JsonText(json); var need := JsonNeed(json);
            && (Verdict(text, limits).Ok? <==>
                  && |text| <= limits.maxInputBytes && |text| * 2 <= limits.maxAllocationBytes
                  && need.depth <= limits.maxNestingDepth
                  && need.containers + need.commas <= limits.maxElements
                  && need.widest <= limits.maxStringBytes)
            && (Verdict(text, limits).Err? && SizeError(|text|, limits).None? ==>
                  Blames(Verdict(text, limits).error, START, need, limits))
  {
    hide JsonText, JsonNeed, Scanned;
    JsonReads(START, json, limits);
  }
}
