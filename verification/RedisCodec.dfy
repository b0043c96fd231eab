/**
 Structs stored as Redis hashes (common/redis.go, RedisHSetObj and RedisHGetObj):
 every field is printed to text on the way in and parsed from text on the way
 out.  A struct is the list of its fields; the hash is a map of texts.
 */
module RedisCodec {
  import opened Numbers
  import opened Wrappers

  type Int64 = x: int | -TWO_63 <= x < TWO_63

  datatype Kind = StringKind | IntKind | BoolKind

  datatype Scalar = Str(s: string) | Int(i: Int64) | Bool(b: bool) {
    function Kind(): Kind {
      match this
      case Str(_) => StringKind
      case Int(_) => IntKind
      case Bool(_) => BoolKind
    }
  }

  /** A field's type and value.  A pointer knows what it points to even when it
      is nil; DeletedAt is gorm's nullable deletion time. */
  datatype Value = Plain(v: Scalar) | Pointer(kind: Kind, target: Option<Scalar>) | DeletedAt(time: Option<int>)

  datatype Field = Field(name: string, value: Value)

  // ---------------------------------------------------------------- texts

  function Digit(d: int): char
    requires 0 <= d < 10
  {
    ('0' as int + d) as char
  }

  function PrintNat(n: nat): string {
    if n < 10 then [Digit(n)] else PrintNat(n / 10) + [Digit(n % 10)]
  }

  function PrintInt(i: int): string {
    if i < 0 then "-" + PrintNat(-i) else PrintNat(i)
  }

  predicate IsDigit(c: char) {
    '0' <= c <= '9'
  }

  function ParseNat(s: string): Option<nat> {
    if s == "" then None
    else
      var n := |s| - 1;
      if !IsDigit(s[n]) then None
      else if n == 0 then Some(s[0] as int - '0' as int)
      else
        match ParseNat(s[..n])
        case None => None
        case Some(high) => Some(10 * high + (s[n] as int - '0' as int))
  }

  /** strconv.ParseInt in base 10 with 64 bits: an optional sign, then digits, in
      range. */
  function ParseInt(s: string): Option<Int64> {
    if s == "" then None
    else
      var negative := s[0] == '-';
      match ParseNat(if s[0] == '-' || s[0] == '+' then s[1..] else s)
      case None => None
      case Some(n) =>
        var i: int := if negative then 0 - n else n;
        if -TWO_63 <= i < TWO_63 then Some(i) else None
  }

  function FormatBool(b: bool): string {
    if b then "true" else "false"
  }

  /** strconv.ParseBool. */
  function ParseBool(s: string): Option<bool> {
    if s in {"1", "t", "T", "TRUE", "true", "True"} then Some(true)
    else if s in {"0", "f", "F", "FALSE", "false", "False"} then Some(false)
    else None
  }

  function PrintScalar(v: Scalar): string {
    match v
    case Str(s) => s
    case Int(i) => PrintInt(i)
    case Bool(b) => FormatBool(b)
  }

  function ParseScalar(kind: Kind, s: string): Option<Scalar> {
    match kind
    case StringKind => Some(Str(s))
    case IntKind => (match ParseInt(s) case None => None case Some(i) => Some(Int(i)))
    case BoolKind => (match ParseBool(s) case None => None case Some(b) => Some(Bool(b)))
  }

  function Zero(kind: Kind): Scalar {
    match kind
    case StringKind => Str("")
    case IntKind => Int(0)
    case BoolKind => Bool(false)
  }

  // ---------------------------------------------------------------- encoding

  /** What a field is stored as; a deletion time is not stored. */
  function EncodeValue(v: Value): Option<string> {
    match v
    case Plain(s) => Some(PrintScalar(s))
    case Pointer(_, None) => Some("")
    case Pointer(_, Some(s)) => Some(PrintScalar(s))
    case DeletedAt(_) => None
  }

  function Encode(fields: seq<Field>): map<string, string> {
    if fields == [] then map[]
    else
      var data := Encode(fields[..|fields| - 1]);
      var f := fields[|fields| - 1];
      match EncodeValue(f.value)
      case None => data
      case Some(text) => data[f.name := text]
  }

  method HSetObj(obj: seq<Field>) returns (data: map<string, string>)
    ensures data == Encode(obj)
  {
    data := map[];
    for i := 0 to |obj|
      invariant data == Encode(obj[..i])
    {
      assert obj[..i + 1][..i] == obj[..i];
      var field := obj[i];
      if field.value.DeletedAt? { continue; }
      var value: Scalar;
      if field.value.Pointer? {
        if field.value.target.None? {
          data := data[field.name := ""];
          continue;
        }
        value := field.value.target.value;
      } else {
        value := field.value.v;
      }
      if value.Bool? {
        data := data[field.name := FormatBool(value.b)];
        continue;
      }
      data := data[field.name := PrintScalar(value)];
    }
    assert obj[..|obj|] == obj;
  }

  // ---------------------------------------------------------------- decoding

  type TimeParser = string -> Option<int>

  /** The value after a text is decoded into it, and whether that succeeded.  A
      nil pointer is allocated before its text is parsed. */
  function DecodeValue(current: Value, text: string, parseTime: TimeParser): (Value, bool) {
    match current
    case Plain(v) =>
      (match ParseScalar(v.Kind(), text)
       case None => (current, false)
       case Some(w) => (Plain(w), true))
    case Pointer(kind, target) =>
      if text == "" then (current, true)
      else
        var held := if target.None? then Zero(kind) else target.value;
        (match ParseScalar(held.Kind(), text)
         case None => (Pointer(kind, Some(held)), false)
         case Some(w) => (Pointer(kind, Some(w)), true))
    case DeletedAt(_) =>
      if text == "" then (current, true)
      else
        match parseTime(text)
        case None => (current, false)
        case Some(t) => (DeletedAt(Some(t)), true)
  }

  /** The fields after decoding, and the field that failed, if any. */
  datatype Decoded = Decoded(fields: seq<Field>, failed: Option<string>)

  /** Decodes a hash into fields, in order; decoding stops at the first failure. */
  function Decode(hash: map<string, string>, fields: seq<Field>, parseTime: TimeParser): Decoded {
    if fields == [] then Decoded([], None)
    else
      var f := fields[0];
      var d := if f.name in hash then DecodeValue(f.value, hash[f.name], parseTime) else (f.value, true);
      if !d.1 then Decoded([Field(f.name, d.0)] + fields[1..], Some(f.name))
      else
        var rest := Decode(hash, fields[1..], parseTime);
        Decoded([Field(f.name, d.0)] + rest.fields, rest.failed)
  }

  datatype Outcome = Loaded | NotFound | BadField(name: string)

  /** The answer, and the struct afterwards. */
  datatype LoadResult = LoadResult(outcome: Outcome, fields: seq<Field>)

  /** Reading a hash into a struct; an empty hash is a missing key. */
  function Load(hash: map<string, string>, fields: seq<Field>, parseTime: TimeParser): LoadResult {
    if hash == map[] then LoadResult(NotFound, fields)
    else
      var d := Decode(hash, fields, parseTime);
      LoadResult(if d.failed.None? then Loaded else BadField(d.failed.value), d.fields)
  }

  /** Decodes into the fields of a struct one by one. */
  method HGetObj(hash: map<string, string>, obj: array<Field>, parseTime: TimeParser) returns (r: Outcome)
    modifies obj
    ensures LoadResult(r, obj[..]) == Load(hash, old(obj[..]), parseTime)
  {
    if |hash| == 0 {
      return NotFound;
    }
    hide Decode, DecodedFrom, DecodeValue;
    ghost var start, done := obj[..], [];
    ghost var final := Decode(hash, start, parseTime);
    DecodeStart(hash, start, parseTime);
    assert start == [] + start[0..];
    for i := 0 to obj.Length
      invariant |done| == i && obj[..] == done + start[i..]
      invariant DecodedFrom(hash, start, i, parseTime, done, final)
    {
      var field := obj[i];
      assert field == obj[..][i] == start[i];
      DecodeStep(hash, start, i, parseTime, done, final);
      SetAt(done, start[i..], field);
      if field.name in hash {
        var d, ok := DecodeField(field.value, hash[field.name], parseTime);
        SetAt(done, start[i..], Field(field.name, d));
        obj[i] := Field(field.name, d);
        done := done + [Field(field.name, d)];
        if !ok {
          return BadField(field.name);
        }
      } else {
        done := done + [field];
      }
    }
    DecodeEnd(hash, start, parseTime, done, final);
    return Loaded;
  }

  lemma SetAt(done: seq<Field>, tail: seq<Field>, x: Field)
    requires tail != []
    ensures (done + tail)[|done| := x] == (done + [x]) + tail[1..]
    ensures done + tail == (done + [tail[0]]) + tail[1..]
  {
  }

  /** The first i fields are done, and decoding the rest completes the result. */
  ghost predicate DecodedFrom(hash: map<string, string>, start: seq<Field>, i: nat, parseTime: TimeParser,
                              done: seq<Field>, final: Decoded)
    requires i <= |start|
  {
    var rest := Decode(hash, start[i..], parseTime);
    final == Decoded(done + rest.fields, rest.failed)
  }

  lemma DecodeStart(hash: map<string, string>, start: seq<Field>, parseTime: TimeParser)
    ensures DecodedFrom(hash, start, 0, parseTime, [], Decode(hash, start, parseTime))
  {
    assert start[0..] == start;
  }

  lemma DecodeEnd(hash: map<string, string>, start: seq<Field>, parseTime: TimeParser,
                  done: seq<Field>, final: Decoded)
    requires DecodedFrom(hash, start, |start|, parseTime, done, final)
    ensures final == Decoded(done, None)
  {
  }

  lemma DecodeStep(hash: map<string, string>, start: seq<Field>, i: nat, parseTime: TimeParser,
                   done: seq<Field>, final: Decoded)
    requires i < |start| && DecodedFrom(hash, start, i, parseTime, done, final)
    ensures var f := start[i];
            if f.name !in hash then DecodedFrom(hash, start, i + 1, parseTime, done + [f], final)
            else
              var d := DecodeValue(f.value, hash[f.name], parseTime);
              if d.1 then DecodedFrom(hash, start, i + 1, parseTime, done + [Field(f.name, d.0)], final)
              else final == Decoded((done + [Field(f.name, d.0)]) + start[i + 1..], Some(f.name))
  {
    var f, tail := start[i], start[i + 1..];
    assert start[i..][1..] == tail && start[i..][0] == f;
    var rest := Decode(hash, tail, parseTime).fields;
    forall v: Value
      ensures done + ([Field(f.name, v)] + rest) == (done + [Field(f.name, v)]) + rest
      ensures done + ([Field(f.name, v)] + tail) == (done + [Field(f.name, v)]) + tail
    {
    }
  }

  method DecodeField(current: Value, text: string, parseTime: TimeParser) returns (value: Value, ok: bool)
    ensures (value, ok) == DecodeValue(current, text, parseTime)
  {
    value, ok := current, true;
    var held: Scalar;
    if current.Pointer? {
      if text == "" { return; }
      if current.target.None? {
        value := Pointer(current.kind, Some(Zero(current.kind)));
      }
      held := value.target.value;
    } else if current.Plain? {
      held := current.v;
    } else {
      if text != "" {
        var t := parseTime(text);
        if t.None? { return value, false; }
        value := DeletedAt(Some(t.value));
      }
      return;
    }
    var parsed := ParseScalar(held.Kind(), text);
    if parsed.None? { return value, false; }
    value := if current.Pointer? then Pointer(current.kind, Some(parsed.value)) else Plain(parsed.value);
  }

  // ---------------------------------------------------------------- round trip

  lemma {:induction false} ParsePrintNat(n: nat)
    ensures ParseNat(PrintNat(n)) == Some(n)
    ensures forall k :: 0 <= k < |PrintNat(n)| ==> IsDigit(PrintNat(n)[k])
  {
    if n >= 10 {
      ParsePrintNat(n / 10);
      var s := PrintNat(n);
      assert s[..|s| - 1] == PrintNat(n / 10);
    }
  }

  /** Every 64-bit integer is parsed back from its decimal text. */
  lemma ParsePrintInt(i: Int64)
    ensures PrintInt(i) != "" && ParseInt(PrintInt(i)) == Some(i)
  {
    var n: int := i;
    ParsePrintNat(if n < 0 then -n else n);
    if n < 0 {
      assert PrintInt(i)[1..] == PrintNat(-n);
    } else {
      assert IsDigit(PrintInt(i)[0]);
    }
  }

  /** s is the decimal text of n behind any number of zeros. */
  predicate Padded(s: string, n: nat) {
    var digits := PrintNat(n);
    |s| >= |digits| && s[|s| - |digits|..] == digits && forall k :: 0 <= k < |s| - |digits| ==> s[k] == '0'
  }

  lemma PrintNatStep(n: nat)
    ensures |PrintNat(n)| > 0 && PrintNat(n)[|PrintNat(n)| - 1] == Digit(n % 10)
    ensures n < 10 ==> PrintNat(n) == [Digit(n)]
    ensures n >= 10 ==> PrintNat(n) == PrintNat(n / 10) + [Digit(n % 10)]
  {
  }

  /** One more digit behind a padded text. */
  lemma PaddedStep(s: string, d: int, n: nat)
    requires 0 <= d < 10 && s != ""
    ensures Padded(s, n) <==> Padded(s + [Digit(d)], 10 * n + d)
  {
    hide PrintNat;
    var m := 10 * n + d;
    PrintNatStep(m);
    PrintNatStep(n);
    assert m / 10 == n && m % 10 == d;
    var t, p := s + [Digit(d)], PrintNat(m);
    if n == 0 {
      assert t[|t| - 1..] == [Digit(d)];
      assert forall k :: 0 <= k < |s| ==> t[k] == s[k];
      assert s[|s| - 1..] == [s[|s| - 1]];
      assert Digit(0) == '0';
    } else if |s| >= |PrintNat(n)| {
      assert t[|t| - |p|..] == s[|s| - |PrintNat(n)|..] + [Digit(d)];
      SameFront(s[|s| - |PrintNat(n)|..], PrintNat(n), Digit(d));
      assert forall k :: 0 <= k < |s| ==> t[k] == s[k];
    }
  }

  lemma SameFront(a: string, b: string, c: char)
    ensures a + [c] == b + [c] <==> a == b
  {
    if a + [c] == b + [c] {
      assert |a| == |b| && (a + [c])[..|a|] == a && (b + [c])[..|b|] == b;
    }
  }

  lemma PaddedLast(s: string, n: nat)
    ensures Padded(s, n) ==> s != "" && s[|s| - 1] == Digit(n % 10)
    ensures |s| == 1 ==> (Padded(s, n) <==> n < 10 && s == [Digit(n)])
  {
    hide PrintNat;
    PrintNatStep(n);
    if n >= 10 {
      PrintNatStep(n / 10);
    }
    if Padded(s, n) {
      assert s[|s| - |PrintNat(n)|..][|PrintNat(n)| - 1] == s[|s| - 1];
    }
    if |s| == 1 && |PrintNat(n)| == 1 {
      assert s[0..] == s;
    }
  }

  /** Exactly the padded texts of a number are parsed as that number. */
  lemma {:induction false} ParseNatExactly(s: string, n: nat)
    ensures ParseNat(s) == Some(n) <==> Padded(s, n)
  {
    hide Padded;
    PaddedLast(s, n);
    if s != "" && IsDigit(s[|s| - 1]) {
      var m := |s| - 1;
      var d := s[m] as int - '0' as int;
      assert Digit(d) == s[m];
      if m == 0 {
        assert s == [Digit(d)];
      } else if n % 10 == d {
        ParseNatExactly(s[..m], n / 10);
        PaddedStep(s[..m], d, n / 10);
        assert s == s[..m] + [Digit(d)];
      }
    }
  }

  function Magnitude(i: int): nat {
    if i < 0 then -i else i
  }

  /** Which texts are parsed as an integer: an optional sign that fits, and digits
      behind any number of zeros. */
  lemma ParseIntExactly(s: string, i: int)
    ensures (ParseInt(s).Some? && ParseInt(s).value == i) <==>
              && s != "" && -0x8000_0000_0000_0000 <= i <= 0x7FFF_FFFF_FFFF_FFFF
              && (if s[0] == '-' then i <= 0 else i >= 0)
              && Padded(if s[0] == '-' || s[0] == '+' then s[1..] else s, Magnitude(i))
  {
    hide ParseNat, Padded;
    if s != "" {
      var digits := if s[0] == '-' || s[0] == '+' then s[1..] else s;
      ParseNatExactly(digits, Magnitude(i));
      match ParseNat(digits) {
        case None =>
        case Some(n) => ParseNatExactly(digits, n);
      }
    }
  }

  lemma PaddedShortest(s: string, n: nat)
    requires Padded(s, n)
    ensures |PrintNat(n)| <= |s| && (|PrintNat(n)| == |s| ==> s == PrintNat(n))
  {
    hide PrintNat;
  }

  /** What is printed is the shortest text of an integer, and the only one of its
      length. */
  lemma PrintIntShortest(s: string, i: Int64)
    requires ParseInt(s) == Some(i)
    ensures |PrintInt(i)| <= |s|
    ensures |PrintInt(i)| == |s| ==> s == PrintInt(i)
  {
    hide PrintNat, ParseInt, Padded;
    ParseIntExactly(s, i);
    var n := Magnitude(i);
    PaddedShortest(if s[0] == '-' || s[0] == '+' then s[1..] else s, n);
    PrintNatStep(n);
    if s[0] == '-' {
      assert s == "-" + s[1..];
    }
  }

  lemma ExampleTexts()
    ensures PrintInt(500) == "500" && PrintInt(-120) == "-120" && PrintInt(0) == "0"
  {
    assert PrintNat(5) == "5" && PrintNat(50) == "50" && PrintNat(500) == "500";
    assert PrintNat(1) == "1" && PrintNat(12) == "12" && PrintNat(120) == "120";
  }

  /** The twelve texts of a boolean. */
  lemma ParseBoolExactly(s: string)
    ensures ParseBool(s) == Some(true) <==>
              s == "1" || s == "t" || s == "T" || s == "true" || s == "True" || s == "TRUE"
    ensures ParseBool(s) == Some(false) <==>
              s == "0" || s == "f" || s == "F" || s == "false" || s == "False" || s == "FALSE"
  {
  }

  lemma ParsePrintScalar(v: Scalar)
    ensures ParseScalar(v.Kind(), PrintScalar(v)) == Some(v)
    ensures PrintScalar(v) == "" <==> v == Str("")
  {
    if v.Int? {
      ParsePrintInt(v.i);
    }
  }

  ghost predicate WellTyped(f: Field) {
    f.value.Pointer? && f.value.target.Some? ==> f.value.target.value.Kind() == f.value.kind
  }

  ghost predicate IsStruct(fields: seq<Field>) {
    && (forall i :: 0 <= i < |fields| ==> WellTyped(fields[i]))
    && (forall i, j :: 0 <= i < j < |fields| ==> fields[i].name != fields[j].name)
  }

  /** The zero value of a field's type. */
  function Zeroed(f: Field): Field {
    Field(f.name,
          match f.value
          case Plain(v) => Plain(Zero(v.Kind()))
          case Pointer(kind, _) => Pointer(kind, None)
          case DeletedAt(_) => DeletedAt(None))
  }

  function AllZeroed(fields: seq<Field>): seq<Field> {
    seq(|fields|, i requires 0 <= i < |fields| => Zeroed(fields[i]))
  }

  /** The two things the codec loses: a pointer to an empty string, which comes
      back nil, and a deletion time, which is not stored. */
  predicate Lossy(f: Field) {
    f.value == Pointer(StringKind, Some(Str(""))) || (f.value.DeletedAt? && f.value.time.Some?)
  }

  function Remembered(fields: seq<Field>): seq<Field> {
    seq(|fields|, i requires 0 <= i < |fields| => if Lossy(fields[i]) then Zeroed(fields[i]) else fields[i])
  }

  lemma {:induction false} EncodeExact(fields: seq<Field>)
    requires IsStruct(fields)
    ensures forall i :: 0 <= i < |fields| ==>
              match EncodeValue(fields[i].value)
              case None => fields[i].name !in Encode(fields)
              case Some(text) => fields[i].name in Encode(fields) && Encode(fields)[fields[i].name] == text
    ensures forall n :: n in Encode(fields) ==> exists i :: 0 <= i < |fields| && fields[i].name == n
  {
    if fields != [] {
      var n := |fields| - 1;
      EncodeExact(fields[..n]);
      forall k | k in Encode(fields) ensures exists i :: 0 <= i < |fields| && fields[i].name == k {
        if k != fields[n].name {
          var i :| 0 <= i < |fields[..n]| && fields[..n][i].name == k;
          assert fields[i].name == k;
        }
      }
    }
  }

  /** What is stored of each field: text as it is, the shortest text of an integer,
      true or false, nothing of a nil pointer, and no deletion time. */
  lemma StoredExactly(fields: seq<Field>, i: nat)
    requires IsStruct(fields) && i < |fields|
    ensures var data, f := Encode(fields), fields[i];
            if f.value.DeletedAt? then f.name !in data
            else
              && f.name in data
              && (f.value.Pointer? && f.value.target.None? ==> data[f.name] == "")
              && (f.value.Plain? || f.value.target.Some? ==>
                    match (if f.value.Plain? then f.value.v else f.value.target.value)
                    case Str(s) => data[f.name] == s
                    case Bool(b) => data[f.name] == if b then "true" else "false"
                    case Int(n) => && ParseInt(data[f.name]) == Some(n)
                                   && forall s :: ParseInt(s) == Some(n) ==> |data[f.name]| <= |s|)
  {
    hide Encode, PrintInt, ParseInt;
    EncodeExact(fields);
    var f := fields[i];
    if !f.value.DeletedAt? && (f.value.Plain? || f.value.target.Some?) {
      var v := if f.value.Plain? then f.value.v else f.value.target.value;
      if v.Int? {
        ParsePrintInt(v.i);
        forall s | ParseInt(s) == Some(v.i) ensures |PrintInt(v.i)| <= |s| {
          PrintIntShortest(s, v.i);
        }
      }
    }
  }

  lemma DecodeEncoded(f: Field, parseTime: TimeParser)
    requires WellTyped(f) && !f.value.DeletedAt?
    ensures DecodeValue(Zeroed(f).value, EncodeValue(f.value).value, parseTime)
         == (if Lossy(f) then Zeroed(f).value else f.value, true)
  {
    match f.value {
      case Plain(v) => ParsePrintScalar(v);
      case Pointer(kind, target) =>
        if target.Some? {
          ParsePrintScalar(target.value);
        }
    }
  }

  lemma {:induction false} DecodeFrom(fields: seq<Field>, hash: map<string, string>, parseTime: TimeParser)
    requires forall i :: 0 <= i < |fields| ==> WellTyped(fields[i])
    requires forall i :: 0 <= i < |fields| ==>
               match EncodeValue(fields[i].value)
               case None => fields[i].name !in hash
               case Some(text) => fields[i].name in hash && hash[fields[i].name] == text
    ensures Decode(hash, AllZeroed(fields), parseTime) == Decoded(Remembered(fields), None)
  {
    if fields != [] {
      var f := fields[0];
      assert AllZeroed(fields)[1..] == AllZeroed(fields[1..]);
      assert Remembered(fields) == [if Lossy(f) then Zeroed(f) else f] + Remembered(fields[1..]);
      assert AllZeroed(fields)[0] == Zeroed(f);
      DecodeFrom(fields[1..], hash, parseTime);
      if !f.value.DeletedAt? {
        DecodeEncoded(f, parseTime);
      }
    }
  }

  /** Whether a field is not in the hash or its text can be read. */
  predicate Readable(hash: map<string, string>, f: Field, parseTime: TimeParser) {
    f.name in hash ==> DecodeValue(f.value, hash[f.name], parseTime).1
  }

  /** A field after its text, if any, was read. */
  function Filled(hash: map<string, string>, f: Field, parseTime: TimeParser): Field {
    if f.name in hash then Field(f.name, DecodeValue(f.value, hash[f.name], parseTime).0) else f
  }

  lemma DecodeFirst(hash: map<string, string>, fields: seq<Field>, parseTime: TimeParser)
    requires fields != []
    ensures var first := Filled(hash, fields[0], parseTime);
            Decode(hash, fields, parseTime)
            == if Readable(hash, fields[0], parseTime)
               then
                 var rest := Decode(hash, fields[1..], parseTime);
                 Decoded([first] + rest.fields, rest.failed)
               else Decoded([first] + fields[1..], Some(fields[0].name))
  {
    hide DecodeValue;
  }

  /** Reading fills the fields up to and including the first that cannot be read,
      which is the one reported, and leaves those after it alone. */
  lemma {:induction false} DecodeExactly(hash: map<string, string>, fields: seq<Field>, parseTime: TimeParser)
    returns (n: nat)
    ensures n <= |fields| && |Decode(hash, fields, parseTime).fields| == |fields|
    ensures forall i :: 0 <= i < n ==> Readable(hash, fields[i], parseTime)
    ensures forall i :: 0 <= i < |fields| ==>
              Decode(hash, fields, parseTime).fields[i]
              == if i <= n then Filled(hash, fields[i], parseTime) else fields[i]
    ensures Decode(hash, fields, parseTime).failed == if n == |fields| then None else Some(fields[n].name)
    ensures n < |fields| ==> !Readable(hash, fields[n], parseTime)
  {
    n := 0;
    if fields != [] {
      DecodeFirst(hash, fields, parseTime);
      hide Decode, Readable, Filled;
      var rest := fields[1..];
      assert forall i :: 1 <= i < |fields| ==> fields[i] == rest[i - 1];
      if Readable(hash, fields[0], parseTime) {
        var k := DecodeExactly(hash, rest, parseTime);
        n := k + 1;
      }
    }
  }

  /** How one text is read: text as it is, integers and booleans if they parse, nothing
      into a pointer or a deletion time from an empty text; a pointer that is nil is
      allocated even when its text cannot be read. */
  lemma DecodeValueExactly(v: Value, text: string, parseTime: TimeParser)
    ensures text == "" && !v.Plain? ==> DecodeValue(v, text, parseTime) == (v, true)
    ensures v.Plain? ==>
              var parsed := ParseScalar(v.v.Kind(), text);
              DecodeValue(v, text, parseTime) == if parsed.Some? then (Plain(parsed.value), true) else (v, false)
    ensures v.Pointer? && text != "" ==>
              var held := if v.target.Some? then v.target.value
                          else match v.kind
                               case StringKind => Str("")
                               case IntKind => Int(0)
                               case BoolKind => Bool(false);
              var parsed := ParseScalar(held.Kind(), text);
              DecodeValue(v, text, parseTime)
              == if parsed.Some? then (Pointer(v.kind, Some(parsed.value)), true)
                 else (Pointer(v.kind, Some(held)), false)
    ensures v.DeletedAt? && text != "" ==>
              DecodeValue(v, text, parseTime)
              == if parseTime(text).Some? then (DeletedAt(Some(parseTime(text).value)), true) else (v, false)
    ensures forall kind, w :: ParseScalar(kind, text) == Some(w) <==>
              match w
              case Str(s) => kind.StringKind? && s == text
              case Int(i) => kind.IntKind? && ParseInt(text) == Some(i)
              case Bool(b) => kind.BoolKind? && ParseBool(text) == Some(b)
  {
    hide ParseInt, ParseBool;
  }

  /** Whether anything of a struct is stored: something that is not a deletion time. */
  ghost predicate Stored(fields: seq<Field>) {
    exists i :: 0 <= i < |fields| && !fields[i].value.DeletedAt?
  }

  lemma NothingStored(fields: seq<Field>)
    requires IsStruct(fields)
    ensures Encode(fields) == map[] <==> !Stored(fields)
  {
    EncodeExact(fields);
    if Stored(fields) {
      var i :| 0 <= i < |fields| && !fields[i].value.DeletedAt?;
      assert fields[i].name in Encode(fields);
    }
    if Encode(fields) != map[] {
      var n :| n in Encode(fields);
      var i :| 0 <= i < |fields| && fields[i].name == n;
      assert !fields[i].value.DeletedAt?;
    }
  }

  /** For example: a struct that is only a deletion time is not found again, even
      when the time is null. */
  lemma DeletionTimeNotFound(name: string, parseTime: TimeParser)
    ensures var fields := [Field(name, DeletedAt(None))];
            !Lossy(fields[0]) && Load(Encode(fields), AllZeroed(fields), parseTime).outcome == NotFound
  {
    NothingStored([Field(name, DeletedAt(None))]);
  }

  /** Reading back into a zeroed struct what was stored never fails on a field, and
      returns the struct with exactly its lossy fields zeroed; a struct of which
      nothing is stored is not found. */
  lemma RoundTrip(fields: seq<Field>, parseTime: TimeParser)
    requires IsStruct(fields)
    ensures Load(Encode(fields), AllZeroed(fields), parseTime)
         == if Stored(fields) then LoadResult(Loaded, Remembered(fields)) else LoadResult(NotFound, AllZeroed(fields))
  {
    NothingStored(fields);
    EncodeExact(fields);
    DecodeFrom(fields, Encode(fields), parseTime);
  }

  /** The struct itself comes back if and only if something of it is stored and it
      has no lossy field. */
  lemma {:induction false} RoundTripExactly(fields: seq<Field>, parseTime: TimeParser)
    requires IsStruct(fields)
    ensures Load(Encode(fields), AllZeroed(fields), parseTime) == LoadResult(Loaded, fields)
       <==> Stored(fields) && forall i :: 0 <= i < |fields| ==> !Lossy(fields[i])
  {
    hide Load, Encode;
    RoundTrip(fields, parseTime);
    forall i | 0 <= i < |fields| ensures Remembered(fields)[i] == fields[i] <==> !Lossy(fields[i]) {
    }
    if forall i :: 0 <= i < |fields| ==> !Lossy(fields[i]) {
      assert Remembered(fields) == fields;
    }
  }
}
