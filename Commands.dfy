/**
  The command encoder of the TCL client: the register table, the
  IMAGE_CONFIG bit layout, and the translation of a textual command into the
  32-character binary word sent to the accelerator.

  Bit 31 of a word is its first character.  Python's `str.split()`,
  `int(str)` and `format(v, '0Nb')` are modelled by `Split`, `ParseInt` and
  `BitStrings.Format`; the float conversion of the IMAGE_CONFIG scale is a
  parameter (`percent`).  A Python call either returns a string, returns
  None, or raises; `Outcome` names the three.
*/
module Commands {
  import opened BitStrings

  // ---------------------------------------------------------------------
  // Register table
  // ---------------------------------------------------------------------

  /** Register names and their 8-bit addresses. */
  const Regs: map<string, string> := map[
    "REG_STATUS" := "00000000",
    "REG_IMG_WIDTH" := "00000001",
    "REG_IMG_HEIGHT" := "00000010",
    "REG_SCALE" := "00000011",
    "REG_MODE" := "00000100",
    "PERF_CYCLES" := "00010000",
    "PERF_FLOPS" := "00010001",
    "PERF_MEM_READ" := "00010010",
    "PERF_MEM_WRITE" := "00010011",
    "DBG_FSM_STATE" := "00100000",
    "DBG_CURR_X" := "00100001",
    "DBG_CURR_Y" := "00100010",
    "DBG_MEM_ADDR" := "00100011",
    "DBG_PIXEL_OUT_0" := "00110000",
    "DBG_PIXEL_OUT_1" := "00110001",
    "DBG_PIXEL_OUT_2" := "00110010",
    "DBG_PIXEL_OUT_3" := "00110011",
    "DBG_NEIGHBORS" := "00110100"]

  /** Every address is eight binary digits, and no register name is
      itself an address. */
  lemma RegAddresses()
    ensures forall name :: name in Regs ==> |Regs[name]| == 8 && IsBits(Regs[name])
    ensures forall name :: name in Regs ==> name !in Regs.Values
  {
    AddressesBits();
    AddressesStartZero();
    NamesStartLetter();
    forall name | name in Regs
      ensures name !in Regs.Values
    {
      assert name[0] != '0';
    }
  }

  /** Every address is eight binary digits. */
  lemma AddressesBits()
    ensures forall name :: name in Regs ==> |Regs[name]| == 8 && IsBits(Regs[name])
  {
  }

  /** Every address starts with a zero. */
  lemma AddressesStartZero()
    ensures forall a :: a in Regs.Values ==> |a| == 8 && a[0] == '0'
  {
  }

  /** No register name starts with a zero. */
  lemma NamesStartLetter()
    ensures forall name :: name in Regs ==> |name| > 0 && name[0] != '0'
  {
  }

  /** No two registers share an address, so an address names exactly one
      register. */
  lemma RegsInjective()
    ensures forall a, b :: a in Regs && b in Regs && Regs[a] == Regs[b] ==> a == b
  {
  }

  // ---------------------------------------------------------------------
  // Tokens and integers
  // ---------------------------------------------------------------------

  /** The characters Python's `str.isspace` accepts. */
  predicate IsSpace(c: char)
  {
    c == ' ' || c == '\t' || c == '\n' || c == '\r' || c == '\U{000B}' || c == '\U{000C}'
    || ('\U{001C}' <= c <= '\U{001F}') || c == '\U{0085}' || c == '\U{00A0}' || c == '\U{1680}'
    || ('\U{2000}' <= c <= '\U{200A}') || c == '\U{2028}' || c == '\U{2029}' || c == '\U{202F}'
    || c == '\U{205F}' || c == '\U{3000}'
  }

  predicate NoSpace(s: string)
  {
    forall i :: 0 <= i < |s| ==> !IsSpace(s[i])
  }

  /** The longest prefix of s without whitespace. */
  function Token(s: string): (r: string)
    ensures |r| <= |s| && r == s[..|r|] && NoSpace(r)
    ensures |r| < |s| ==> IsSpace(s[|r|])
  {
    if s == [] || IsSpace(s[0]) then [] else [s[0]] + Token(s[1..])
  }

  /** Python's `s.split()`: the maximal runs of non-whitespace characters,
      left to right. */
  function Split(s: string): (r: seq<string>)
    ensures forall k :: 0 <= k < |r| ==> r[k] != [] && NoSpace(r[k])
    decreases |s|
  {
    if s == [] then []
    else if IsSpace(s[0]) then Split(s[1..])
    else
      var t := Token(s);
      [t] + Split(s[|t|..])
  }

  /** The tokens joined by single spaces (`" ".join(ts)`). */
  function Join(ts: seq<string>): string
  {
    if ts == [] then []
    else if |ts| == 1 then ts[0]
    else ts[0] + " " + Join(ts[1..])
  }

  /** The characters of s that are not whitespace, in order. */
  function Strip(s: string): (r: string)
    ensures NoSpace(r)
  {
    if s == [] then []
    else if IsSpace(s[0]) then Strip(s[1..])
    else [s[0]] + Strip(s[1..])
  }

  /** The tokens, concatenated. */
  function Concat(ts: seq<string>): string
  {
    if ts == [] then [] else ts[0] + Concat(ts[1..])
  }

  /** A whitespace-free word followed by whitespace or by nothing is one
      whole token. */
  lemma {:induction false} TokenOfWord(t: string, rest: string)
    requires NoSpace(t)
    requires rest == [] || IsSpace(rest[0])
    ensures Token(t + rest) == t
    decreases |t|
  {
    if t != [] {
      assert (t + rest)[1..] == t[1..] + rest;
      TokenOfWord(t[1..], rest);
    } else {
      assert t + rest == rest;
    }
  }

  /** Splitting a word followed by whitespace or by nothing gives that
      word, then the split of the rest. */
  lemma SplitWord(t: string, rest: string)
    requires t != [] && NoSpace(t)
    requires rest == [] || IsSpace(rest[0])
    ensures Split(t + rest) == [t] + Split(rest)
  {
    TokenOfWord(t, rest);
    assert (t + rest)[0] == t[0];
    assert (t + rest)[|t|..] == rest;
  }

  /** Splitting the space-joined tokens gives the tokens back, when each is
      non-empty and free of whitespace. */
  lemma {:induction false} SplitJoin(ts: seq<string>)
    requires forall k :: 0 <= k < |ts| ==> ts[k] != [] && NoSpace(ts[k])
    ensures Split(Join(ts)) == ts
    decreases |ts|
  {
    if |ts| == 1 {
      SplitWord(ts[0], []);
      assert ts[0] + [] == ts[0];
    } else if |ts| > 1 {
      var rest := " " + Join(ts[1..]);
      SplitWord(ts[0], rest);
      assert rest[1..] == Join(ts[1..]);
      SplitJoin(ts[1..]);
      assert ts[0] + " " + Join(ts[1..]) == ts[0] + rest;
      assert [ts[0]] + ts[1..] == ts;
    }
  }

  /** Removing the whitespace of a whitespace-free word keeps the word, and
      whitespace removal distributes over concatenation. */
  lemma {:induction false} StripAppend(a: string, b: string)
    ensures Strip(a + b) == Strip(a) + Strip(b)
    decreases |a|
  {
    if a == [] {
      assert a + b == b;
    } else {
      assert (a + b)[0] == a[0] && (a + b)[1..] == a[1..] + b;
      StripAppend(a[1..], b);
    }
  }

  lemma {:induction false} StripWord(t: string)
    requires NoSpace(t)
    ensures Strip(t) == t
    decreases |t|
  {
    if t != [] {
      StripWord(t[1..]);
      assert [t[0]] + t[1..] == t;
    }
  }

  /** The tokens of s, concatenated, are the characters of s that are not
      whitespace: nothing is dropped, added or reordered. */
  lemma {:induction false} SplitConcat(s: string)
    ensures Concat(Split(s)) == Strip(s)
    decreases |s|
  {
    if s != [] {
      if IsSpace(s[0]) {
        SplitConcat(s[1..]);
      } else {
        var t := Token(s);
        var rest := s[|t|..];
        SplitConcat(rest);
        assert s == t + rest;
        StripAppend(t, rest);
        StripWord(t);
        assert Split(s) == [t] + Split(rest);
        assert ([t] + Split(rest))[1..] == Split(rest);
      }
    }
  }

  predicate IsDecimal(s: string)
  {
    forall i :: 0 <= i < |s| ==> '0' <= s[i] <= '9'
  }

  function DecimalValue(s: string): nat
    requires IsDecimal(s)
  {
    if s == [] then 0 else 10 * DecimalValue(s[..|s| - 1]) + (s[|s| - 1] as int - '0' as int)
  }

  /** Python's `int(token)` on a whitespace-free token: an optional sign and
      at least one decimal digit; anything else raises (None). */
  function ParseInt(s: string): (r: Option<int>)
    ensures r.Some? <==> (|s| > 0 && if s[0] == '-' || s[0] == '+' then |s| > 1 && IsDecimal(s[1..]) else IsDecimal(s))
  {
    if |s| > 0 && (s[0] == '-' || s[0] == '+') then
      if |s| > 1 && IsDecimal(s[1..]) then
        var magnitude: int := DecimalValue(s[1..]);
        Some(if s[0] == '-' then -magnitude else magnitude)
      else None
    else if |s| > 0 && IsDecimal(s) then Some(DecimalValue(s))
    else None
  }

  /** Python's `str(v)`: the decimal digits of |v|, most significant
      first, without leading zeros, after a '-' when v is negative. */
  function Decimal(v: int): string
  {
    if v < 0 then "-" + Digits(-v) else Digits(v)
  }

  function Digits(n: nat): (r: string)
    ensures r != [] && IsDecimal(r)
    decreases n
  {
    var d := ['0' + (n % 10) as char];
    if n < 10 then d else Digits(n / 10) + d
  }

  /** The decimal digits of n denote n. */
  lemma {:induction false} DigitsValue(n: nat)
    ensures DecimalValue(Digits(n)) == n
    decreases n
  {
    var d := ['0' + (n % 10) as char];
    if n >= 10 {
      DigitsValue(n / 10);
      var s := Digits(n / 10) + d;
      assert s[..|s| - 1] == Digits(n / 10);
    } else {
      assert d[..0] == [];
    }
  }

  /** `int(str(v)) == v` for every integer v. */
  lemma ParseDecimal(v: int)
    ensures Decimal(v) != [] && NoSpace(Decimal(v))
    ensures ParseInt(Decimal(v)) == Some(v)
  {
    var s := Decimal(v);
    if v < 0 {
      DigitsValue(-v);
      assert s[1..] == Digits(-v);
    } else {
      DigitsValue(v);
    }
  }

  // ---------------------------------------------------------------------
  // IMAGE_CONFIG
  // ---------------------------------------------------------------------

  /** What a Python call does: returns a string, returns None, raises. */
  datatype Outcome =
    | Encoded(bits: string)
    | Rejected
    | Raised
    /** READ_IMAGE: the client sends the read-image word itself and reads
        the image back (`PixelTransfer.ReadImage`); the call then returns
        None, or raises when a reply does not parse. */
    | ImageRequest

  /** The fields of an IMAGE_CONFIG word. */
  datatype Config = Config(mode: char, debug: char, width: nat, height: nat, simd: nat, scale: nat)

  /** Fields that fit their bit fields. */
  predicate Fits(c: Config)
  {
    c.width < 512 && c.height < 512 && c.simd < 8 && c.scale < 256
  }

  /** Bit 31 set, bit 30 the mode, bit 29 the debug flag, bits 28-20 the
      width, 19-11 the height, 10-8 the SIMD width, 7-0 the scale in
      percent. */
  function Encode(c: Config): string
  {
    "1" + [c.mode] + [c.debug] + Format(c.width, 9) + Format(c.height, 9) + Format(c.simd, 3) + Format(c.scale, 8)
  }

  /** The fields of a 32-character configuration word, if it is one. */
  function Decode(s: string): Option<Config>
  {
    if |s| == 32 && s[0] == '1' && IsBits(s[3..12]) && IsBits(s[12..21]) && IsBits(s[21..24]) && IsBits(s[24..])
    then Some(Config(s[1], s[2], Value(s[3..12]), Value(s[12..21]), Value(s[21..24]), Value(s[24..])))
    else None
  }

  /** `process_image_config_command`: seven tokens, the numeric ones parsed
      and formatted into their bit fields; the mode and debug tokens are
      copied as they are. */
  function ImageConfig(cmd: string, percent: string -> Option<int>): Outcome
  {
    var parts := Split(cmd);
    if |parts| != 7 then Rejected
    else
      match (ParseInt(parts[1]), ParseInt(parts[2]), ParseInt(parts[6]), percent(parts[3]))
      case (Some(w), Some(h), Some(n), Some(sc)) =>
        Encoded("1" + parts[4] + parts[5] + Format(w, 9) + Format(h, 9) + Format(n, 3) + Format(sc, 8))
      case _ => Raised
  }

  /** Decoding a configuration word gives back the fields it was built
      from, and the word is 32 binary characters after its mode and debug
      characters. */
  lemma DecodeEncode(c: Config)
    requires Fits(c)
    ensures |Encode(c)| == 32 && IsBits(Encode(c)[3..])
    ensures Decode(Encode(c)) == Some(c)
  {
    var fw, fh, fn, fs := Format(c.width, 9), Format(c.height, 9), Format(c.simd, 3), Format(c.scale, 8);
    assert Pow2(9) == 512 && Pow2(3) == 8 && Pow2(8) == 256;
    FormatFits(c.width, 9);
    FormatFits(c.height, 9);
    FormatFits(c.simd, 3);
    FormatFits(c.scale, 8);
    Layout(c.mode, c.debug, fw, fh, fn, fs);
    BitsConcat(fw, fh);
    BitsConcat(fw + fh, fn);
    BitsConcat(fw + fh + fn, fs);
  }

  /** Where the fields of a configuration word sit. */
  lemma Layout(mode: char, debug: char, w: string, h: string, n: string, sc: string)
    requires |w| == 9 && |h| == 9 && |n| == 3 && |sc| == 8
    ensures var s := "1" + [mode] + [debug] + w + h + n + sc;
      |s| == 32 && s[0] == '1' && s[1] == mode && s[2] == debug
      && s[3..12] == w && s[12..21] == h && s[21..24] == n && s[24..] == sc
      && s[3..] == w + h + n + sc
  {
  }

  /** Every word that decodes is the encoding of its fields, and those
      fields fit. */
  lemma EncodeDecode(s: string)
    requires Decode(s).Some?
    ensures Fits(Decode(s).value) && Encode(Decode(s).value) == s
  {
    var c := Decode(s).value;
    DecodedFits(s);
    FieldRoundTrip(s, 3, 12);
    FieldRoundTrip(s, 12, 21);
    FieldRoundTrip(s, 21, 24);
    FieldRoundTrip(s, 24, 32);
    assert s[24..] == s[24..32];
    assert s == [s[0]] + [s[1]] + [s[2]] + s[3..12] + s[12..21] + s[21..24] + s[24..32];
  }

  /** The fields of a decoded word fit their bit fields. */
  lemma DecodedFits(s: string)
    requires Decode(s).Some?
    ensures Fits(Decode(s).value)
  {
    ValueBound(s[3..12]);
    ValueBound(s[12..21]);
    ValueBound(s[21..24]);
    ValueBound(s[24..]);
    assert Pow2(9) == 512 && Pow2(3) == 8 && Pow2(8) == 256;
  }

  /** One bit field of a word: its value fits the field, and formatting the
      value to the field's width gives the field back. */
  lemma FieldRoundTrip(s: string, a: nat, b: nat)
    requires a < b <= |s| && IsBits(s[a..b])
    ensures Value(s[a..b]) < Pow2(b - a) && Format(Value(s[a..b]), b - a) == s[a..b]
  {
    ValueBound(s[a..b]);
    FormatValue(s[a..b]);
  }

  /** IMAGE_CONFIG returns None exactly when the command is not seven
      tokens; with seven it raises exactly when a numeric field does not
      parse. */
  lemma ImageConfigOutcome(cmd: string, percent: string -> Option<int>)
    ensures ImageConfig(cmd, percent) == Rejected <==> |Split(cmd)| != 7
    ensures ImageConfig(cmd, percent) == Raised <==>
      var parts := Split(cmd);
      |parts| == 7 && (ParseInt(parts[1]).None? || ParseInt(parts[2]).None? || ParseInt(parts[6]).None?
                       || percent(parts[3]).None?)
  {
  }

  /** A well-formed IMAGE_CONFIG command with fields that fit gives the
      32-bit word that decodes to those fields. */
  lemma ImageConfigLayout(cmd: string, percent: string -> Option<int>, c: Config)
    requires Fits(c)
    requires var parts := Split(cmd);
      |parts| == 7 && parts[4] == [c.mode] && parts[5] == [c.debug]
      && ParseInt(parts[1]) == Some(c.width) && ParseInt(parts[2]) == Some(c.height)
      && ParseInt(parts[6]) == Some(c.simd) && percent(parts[3]) == Some(c.scale)
    ensures ImageConfig(cmd, percent).Encoded?
    ensures var w := ImageConfig(cmd, percent).bits;
      |w| == 32 && w == Encode(c) && Decode(w) == Some(c)
  {
    DecodeEncode(c);
  }

  /** The IMAGE_CONFIG command written field by field, as the client's main
      program formats it (integers with `str`, the scale token as given),
      converts to the configuration word of those fields. */
  lemma ImageConfigOfFields(c: Config, scaleTok: string, percent: string -> Option<int>)
    requires Fits(c)
    requires scaleTok != [] && NoSpace(scaleTok) && percent(scaleTok) == Some(c.scale)
    requires !IsSpace(c.mode) && !IsSpace(c.debug)
    ensures var cmd := Join(["IMAGE_CONFIG", Decimal(c.width), Decimal(c.height), scaleTok,
                             [c.mode], [c.debug], Decimal(c.simd)]);
      ConvertCommand(cmd, percent) == Encoded(Encode(c)) && Decode(Encode(c)) == Some(c)
  {
    var ts := ["IMAGE_CONFIG", Decimal(c.width), Decimal(c.height), scaleTok, [c.mode], [c.debug], Decimal(c.simd)];
    ParseDecimal(c.width);
    ParseDecimal(c.height);
    ParseDecimal(c.simd);
    assert NoSpace("IMAGE_CONFIG");
    SplitJoin(ts);
    ImageConfigLayout(Join(ts), percent, c);
  }

  // ---------------------------------------------------------------------
  // Command words
  // ---------------------------------------------------------------------

  /** The word every command starts from: 32 zeros. */
  const Blank: string := Repeat('0', 32)

  /** START and STEP: bit 31 of the blank word set. */
  const StartWord: string := "1" + Blank[1..]

  /** `dato_leido`: bit 31 clear, bits 30-0 set. */
  const AckWord: string := "0" + Repeat('1', 31)

  /** READ_IMAGE: bits 31-28 are 0001, the rest zero. */
  const ReadImageWord: string := "0001" + Repeat('0', 28)

  /** READ_REG: bits 31-30 are 01, bits 29-8 zero, bits 7-0 the address. */
  function ReadRegWord(addr: string): string
  {
    "01" + Repeat('0', 22) + addr
  }

  /** The READ_REG branch: exactly one operand, a register name or one of
      the table's addresses. */
  function ReadReg(parts: seq<string>): Outcome
  {
    if |parts| != 2 then Rejected
    else
      var reg := parts[1];
      if reg in Regs then Encoded(ReadRegWord(Regs[reg]))
      else if reg in Regs.Values then Encoded(ReadRegWord(reg))
      else Rejected
  }

  /** `convert_command_to_binary`, dispatching on the first token. */
  function ConvertCommand(cmd: string, percent: string -> Option<int>): Outcome
  {
    var parts := Split(cmd);
    if parts == [] then Raised
    else if parts[0] == "START" || parts[0] == "STEP" then Encoded(StartWord)
    else if parts[0] == "IMAGE_CONFIG" then ImageConfig(cmd, percent)
    else if parts[0] == "WRITE_PIXELS" then Rejected
    else if parts[0] == "READ_REG" then ReadReg(parts)
    else if parts[0] == "READ_IMAGE" then ImageRequest
    else Rejected
  }

  /** The fixed words: 32 binary characters each, START/STEP is a one
      followed by 31 zeros, the acknowledge word a zero followed by 31 ones,
      and all of them tell apart from each other and from every READ_REG
      word by their top bits.  START/STEP is also the configuration word of
      all-zero fields. */
  lemma FixedWords()
    ensures StartWord == "1" + Repeat('0', 31) && AckWord == "0" + Repeat('1', 31)
    ensures |StartWord| == 32 && |AckWord| == 32 && |ReadImageWord| == 32
    ensures IsBits(StartWord) && IsBits(AckWord) && IsBits(ReadImageWord)
    ensures StartWord != AckWord && StartWord != ReadImageWord && AckWord != ReadImageWord
    ensures forall addr :: StartWord != ReadRegWord(addr) && AckWord != ReadRegWord(addr)
                           && ReadImageWord != ReadRegWord(addr)
    ensures StartWord == Encode(Config('0', '0', 0, 0, 0, 0))
  {
    assert StartWord[1] != AckWord[1];
    assert ReadImageWord[1] != AckWord[1];
    assert StartWord[0] != ReadImageWord[0];
    forall addr: string
      ensures StartWord != ReadRegWord(addr) && AckWord != ReadRegWord(addr) && ReadImageWord != ReadRegWord(addr)
    {
      assert ReadRegWord(addr)[0] == '0' && ReadRegWord(addr)[1] == '1' && ReadRegWord(addr)[2] == '0';
      assert AckWord[2] == '1';
    }
  }

  /** The outcome of each command word: an empty command raises, START and
      STEP give the start word, IMAGE_CONFIG is `ImageConfig`, WRITE_PIXELS
      and unknown words give None, READ_IMAGE runs the read-back exchange. */
  lemma ConvertOutcome(cmd: string, percent: string -> Option<int>)
    ensures Split(cmd) == [] ==> ConvertCommand(cmd, percent) == Raised
    ensures Split(cmd) != [] ==>
      var op := Split(cmd)[0];
      && (op == "START" || op == "STEP" ==> ConvertCommand(cmd, percent) == Encoded(StartWord))
      && (op == "IMAGE_CONFIG" ==> ConvertCommand(cmd, percent) == ImageConfig(cmd, percent))
      && (op == "WRITE_PIXELS" ==> ConvertCommand(cmd, percent) == Rejected)
      && (op == "READ_IMAGE" ==> ConvertCommand(cmd, percent) == ImageRequest)
      && (op !in {"START", "STEP", "IMAGE_CONFIG", "WRITE_PIXELS", "READ_REG", "READ_IMAGE"}
          ==> ConvertCommand(cmd, percent) == Rejected)
  {
  }

  /** READ_REG gives a word exactly for one operand that is a register name
      or address; the word is 01, 22 zeros and the register's address, 32
      binary characters, and a name and its address give the same word. */
  lemma ReadRegOutcome(cmd: string, percent: string -> Option<int>)
    requires Split(cmd) != [] && Split(cmd)[0] == "READ_REG"
    ensures var parts := Split(cmd);
      ConvertCommand(cmd, percent).Encoded? <==> |parts| == 2 && (parts[1] in Regs || parts[1] in Regs.Values)
    ensures var parts := Split(cmd);
      ConvertCommand(cmd, percent).Encoded? ==>
        var w := ConvertCommand(cmd, percent).bits;
        var addr := if parts[1] in Regs then Regs[parts[1]] else parts[1];
        addr in Regs.Values && |w| == 32 && IsBits(w)
        && w[..2] == "01" && w[2..24] == Repeat('0', 22) && w[24..] == addr
  {
    RegAddresses();
    var parts := Split(cmd);
    if ConvertCommand(cmd, percent).Encoded? {
      var addr := if parts[1] in Regs then Regs[parts[1]] else parts[1];
      var w := ReadRegWord(addr);
      assert addr in Regs.Values;
      assert w[24..] == addr;
    }
  }

  /** Reading a register by name and by its address sends the same word,
      and two different registers never share a word. */
  lemma ReadRegByNameOrAddress(name: string, other: string)
    requires name in Regs && other in Regs
    ensures ReadReg(["READ_REG", name]) == ReadReg(["READ_REG", Regs[name]])
    ensures name != other ==> ReadReg(["READ_REG", name]) != ReadReg(["READ_REG", other])
  {
    RegAddresses();
    RegsInjective();
    if name != other {
      assert ReadRegWord(Regs[name])[24..] == Regs[name];
      assert ReadRegWord(Regs[other])[24..] == Regs[other];
    }
  }
}
