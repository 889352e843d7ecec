/** Ethereum activities: validation, the deduplication key, and what is handed to the handler. */
module EthActivity {
  import opened Wrappers
  import opened Numerals
  import opened CacheModel
  import opened Rounding

  /** The dynamic type of the JSON field `decimals`. */
  datatype DecimalsField = NoDecimals | FloatDecimals(f: real) | IntDecimals(i: int) | TextDecimals(s: string) | OtherDecimals

  datatype RawContract = RawContract(rawValue: string, address: string, decimals: DecimalsField)

  datatype Activity = Activity(
    blockNum: string, hash: string, fromAddress: string, toAddress: string, value: Option<real>,
    erc721TokenId: Option<string>, asset: string, category: string, rawContract: Option<RawContract>,
    typeTraceAddress: Option<string>)

  datatype ProcessedActivity = ProcessedActivity(
    txHash: string, fromAddress: string, toAddress: string, value: string, currency: string,
    category: string, blockNumber: nat, network: string, isInternal: bool)

  datatype Error =
    InvalidToAddress | InvalidFromAddress | InvalidTransactionHash | InvalidBlockNumber | UnparsableBlockNumber | HandlerError

  /** `tokenSymbol` maps a contract address to the configured symbol, or to the empty string. */
  datatype ProcessorConfig = ProcessorConfig(chainID: string, tokenSymbol: string -> string, hasHandler: bool)

  datatype Verdict = Rejected(error: Error) | Ignored | Offered(activity: ProcessedActivity)

  // ----- Validation and the key -----

  predicate ValidAddress(addr: string) {
    addr != "" && var digits := TrimPrefix(ToLower(addr), "0x"); |digits| == 40 && AllLowerHex(digits)
  }

  predicate ValidHash(hash: string) {
    hash != "" && var digits := TrimPrefix(ToLower(hash), "0x"); |digits| == 64 && AllLowerHex(digits)
  }

  function CanonicalHash(hash: string): string {
    var lowered := ToLower(TrimPrefix(hash, "0x"));
    if HasPrefix(lowered, "0x") then lowered else "0x" + lowered
  }

  /** An absent trace address and an empty one are the same. */
  function TraceOf(a: Activity): string {
    match a.typeTraceAddress case Some(trace) => trace case None => ""
  }

  function UniqueID(a: Activity): Key {
    if TraceOf(a) != "" then CanonicalHash(a.hash) + "_" + TraceOf(a) else CanonicalHash(a.hash)
  }

  /** The checks made before the cache is consulted. */
  function CheckKey(a: Activity): Result<Key, Error> {
    if !ValidAddress(a.toAddress) then Err(InvalidToAddress)
    else if !ValidAddress(a.fromAddress) then Err(InvalidFromAddress)
    else if !ValidHash(CanonicalHash(a.hash)) then Err(InvalidTransactionHash)
    else Ok(UniqueID(a))
  }

  /** The last 64 characters of a hash: its digits, once it is accepted. */
  function HashDigits(hash: string): string {
    if |hash| <= 64 then hash else hash[|hash| - 64..]
  }

  predicate IsHashPrefix(p: string) {
    p == "" || p == "0x" || p == "0X" || p == "0x0x" || p == "0x0X"
  }

  lemma LowerConcat(s: string, t: string)
    ensures ToLower(s + t) == ToLower(s) + ToLower(t)
  {
  }

  lemma LowerIdempotent(s: string)
    ensures ToLower(ToLower(s)) == ToLower(s)
    ensures AllLowerHex(s) ==> ToLower(s) == s
  {
  }

  lemma LowerPrefixes()
    ensures ToLower("") == "" && ToLower("0x") == "0x" && ToLower("0X") == "0x"
  {
  }

  /** A lower-case hex string does not begin with the prefix. */
  lemma HexHasNoPrefix(s: string)
    requires AllLowerHex(s)
    ensures !HasPrefix(s, "0x") && !HasPrefix(s, "0X")
  {
    if |s| >= 2 { assert IsLowerHex(s[1]); }
  }

  /** The canonical form of each accepted spelling of 64 digits. */
  lemma CanonicalOfAccepted(prefix: string, digits: string)
    requires IsHashPrefix(prefix) && AllDigits(digits, 16)
    ensures CanonicalHash(prefix + digits) == "0x" + ToLower(digits)
  {
    LowerKeepsValue(digits);
    HexHasNoPrefix(ToLower(digits));
    LowerPrefixes();
    NoPrefixInDigits(digits);
    if prefix == "" {
      assert prefix + digits == digits;
    } else if prefix == "0X" {
      LowerConcat(prefix, digits);
      assert (prefix + digits)[1] == 'X';
    } else if prefix == "0x" {
      assert (prefix + digits)[2..] == digits;
    } else {
      var inner := prefix[2..];
      assert (prefix + digits)[2..] == inner + digits;
      assert inner == "0x" || inner == "0X";
      LowerConcat(inner, digits);
    }
  }

  lemma NoPrefixInDigits(digits: string)
    requires AllDigits(digits, 16)
    ensures !HasPrefix(digits, "0x")
  {
    if |digits| >= 2 { assert DigitValue(digits[1]) < 16; }
  }

  /** What lower-cases to the prefix. */
  lemma LowersToPrefix(s: string)
    requires HasPrefix(ToLower(s), "0x")
    ensures |s| >= 2 && (s[..2] == "0x" || s[..2] == "0X") && ToLower(s)[2..] == ToLower(s[2..])
  {
    var t := ToLower(s);
    assert t[0] == '0' && t[1] == 'x';
    assert s[0] == '0' && (s[1] == 'x' || s[1] == 'X');
    assert s[..2] == [s[0], s[1]];
  }

  /** A hash is accepted if and only if it is 64 hex digits, in either case, after one of five prefixes. */
  lemma AcceptedHashes(hash: string)
    ensures ValidHash(CanonicalHash(hash)) <==>
            exists prefix | IsHashPrefix(prefix) ::
              |hash| == |prefix| + 64 && prefix <= hash && AllDigits(HashDigits(hash), 16)
  {
    if prefix :| IsHashPrefix(prefix) && |hash| == |prefix| + 64 && prefix <= hash && AllDigits(HashDigits(hash), 16) {
      var digits := HashDigits(hash);
      assert hash == prefix + digits;
      CanonicalOfAccepted(prefix, digits);
      LowerKeepsValue(digits);
      CanonicalIsValid(ToLower(digits));
    }
    if ValidHash(CanonicalHash(hash)) {
      var prefix := AcceptedPrefix(hash);
    }
  }

  lemma CanonicalIsValid(lowered: string)
    requires |lowered| == 64 && AllLowerHex(lowered)
    ensures ValidHash("0x" + lowered)
  {
    LowerConcat("0x", lowered);
    LowerPrefixes();
    LowerIdempotent(lowered);
    assert ("0x" + lowered)[2..] == lowered;
  }

  /** The spellings accepted after the literal prefix has been trimmed. */
  lemma AcceptedRest(rest: string)
    requires ValidHash(if HasPrefix(ToLower(rest), "0x") then ToLower(rest) else "0x" + ToLower(rest))
    ensures |rest| >= 64 && AllDigits(rest[|rest| - 64..], 16)
    ensures rest[..|rest| - 64] == "" || rest[..|rest| - 64] == "0x" || rest[..|rest| - 64] == "0X"
  {
    var lowered := ToLower(rest);
    LowerIdempotent(rest);
    if HasPrefix(lowered, "0x") {
      LowersToPrefix(rest);
      LowerKeepsValue(rest[2..]);
    } else {
      LowerPrefixes();
      LowerConcat("0x", lowered);
      assert ("0x" + lowered)[2..] == lowered;
      LowerKeepsValue(rest);
      assert rest[0..] == rest;
    }
  }

  /** The prefix under which an accepted hash was spelled. */
  lemma AcceptedPrefix(hash: string) returns (prefix: string)
    requires ValidHash(CanonicalHash(hash))
    ensures IsHashPrefix(prefix) && |hash| == |prefix| + 64 && prefix <= hash && AllDigits(HashDigits(hash), 16)
  {
    var rest := TrimPrefix(hash, "0x");
    AcceptedRest(rest);
    prefix := hash[..|hash| - 64];
    TrimmedTail(hash, rest[..|rest| - 64]);
  }

  /** What precedes the last 64 characters, before and after trimming the literal prefix. */
  lemma TrimmedTail(hash: string, before: string)
    requires |TrimPrefix(hash, "0x")| == |before| + 64 && before <= TrimPrefix(hash, "0x")
    requires before == "" || before == "0x" || before == "0X"
    ensures |hash| >= 64 && IsHashPrefix(hash[..|hash| - 64])
    ensures HashDigits(hash) == TrimPrefix(hash, "0x")[|before|..]
  {
    var rest := TrimPrefix(hash, "0x");
    if HasPrefix(hash, "0x") {
      assert hash == "0x" + rest;
      assert hash[..|hash| - 64] == "0x" + before;
      assert "0x" + "" == "0x" && "0x" + "0x" == "0x0x" && "0x" + "0X" == "0x0X";
    } else {
      assert hash[..|hash| - 64] == before;
    }
  }

  /** Accepted hashes are canonicalised to "0x" and their 64 digits in lower case, and canonicalising
      that again changes nothing. */
  lemma CanonicalForm(hash: string)
    requires ValidHash(CanonicalHash(hash))
    ensures CanonicalHash(hash) == "0x" + ToLower(HashDigits(hash))
    ensures |HashDigits(hash)| == 64 && AllLowerHex(ToLower(HashDigits(hash)))
    ensures CanonicalHash(CanonicalHash(hash)) == CanonicalHash(hash)
  {
    var prefix := AcceptedPrefix(hash);
    var digits := HashDigits(hash);
    assert hash == prefix + digits;
    CanonicalOfAccepted(prefix, digits);
    LowerKeepsValue(digits);
    LowerIdempotent(digits);
    LowerKeepsValue(ToLower(digits));
    CanonicalOfAccepted("0x", ToLower(digits));
  }

  /** Without validation, canonicalising again changes nothing exactly when at most one prefix is left
      after the first trimming. */
  lemma CanonicalTwice(hash: string)
    ensures CanonicalHash(CanonicalHash(hash)) == CanonicalHash(hash) <==>
            !HasPrefix(ToLower(TrimPrefix(hash, "0x")), "0x0x")
  {
    var lowered, once := ToLower(TrimPrefix(hash, "0x")), CanonicalHash(hash);
    LowerIdempotent(TrimPrefix(hash, "0x"));
    assert ("0x" + lowered)[2..] == lowered;
    var rest := if HasPrefix(lowered, "0x") then lowered[2..] else lowered;
    assert HasPrefix(once, "0x") && once[2..] == rest && ToLower(rest) == rest;
    assert once == "0x" + rest;
    PrefixTwice(lowered);
  }

  lemma PrefixTwice(s: string)
    ensures HasPrefix(s, "0x0x") <==> HasPrefix(s, "0x") && HasPrefix(s[2..], "0x")
  {
    if |s| >= 4 { assert s[..4] == s[..2] + s[2..][..2]; }
  }

  /** Then it takes off one prefix at a time. */
  lemma CanonicalNotIdempotent()
    ensures CanonicalHash("0x0x0x") == "0x0x" && CanonicalHash("0x0x") == "0x"
  {
    assert "0x0x0x"[2..] == "0x0x" && "0x0x"[2..] == "0x";
    assert ToLower("0x0x") == "0x0x" && ToLower("0x") == "0x";
  }

  /** Two accepted activities have the same key if and only if the 64 digits of their hashes denote the
      same number and their trace addresses agree. */
  lemma {:induction false} KeyIdentity(a: Activity, b: Activity)
    requires CheckKey(a).Ok? && CheckKey(b).Ok?
    ensures CheckKey(a).value == CheckKey(b).value <==>
            Value(HashDigits(a.hash), 16) == Value(HashDigits(b.hash), 16) && TraceOf(a) == TraceOf(b)
  {
    CanonicalForm(a.hash);
    CanonicalForm(b.hash);
    var x, y := ToLower(HashDigits(a.hash)), ToLower(HashDigits(b.hash));
    LowerKeepsValue(HashDigits(a.hash));
    LowerKeepsValue(HashDigits(b.hash));
    KeyParts(a, x);
    KeyParts(b, y);
    if UniqueID(a) == UniqueID(b) {
      assert x == UniqueID(a)[2..66] == y;
      assert Suffix(TraceOf(a)) == UniqueID(a)[66..] == Suffix(TraceOf(b));
      if TraceOf(a) != "" { assert Suffix(TraceOf(a))[1..] == TraceOf(a); }
      if TraceOf(b) != "" { assert Suffix(TraceOf(b))[1..] == TraceOf(b); }
    } else if Value(x, 16) == Value(y, 16) && TraceOf(a) == TraceOf(b) {
      ValueInjective(x, y);
    }
  }

  function Suffix(trace: string): string {
    if trace == "" then "" else "_" + trace
  }

  lemma KeyParts(a: Activity, x: string)
    requires CanonicalHash(a.hash) == "0x" + x && |x| == 64
    ensures |UniqueID(a)| >= 66 && UniqueID(a)[2..66] == x && UniqueID(a)[66..] == Suffix(TraceOf(a))
  {
    assert UniqueID(a) == "0x" + x + Suffix(TraceOf(a));
  }

  // ----- Block numbers -----

  predicate ValidBlockNumber(s: string) {
    s != "" && var digits := TrimPrefix(ToLower(s), "0x"); |digits| != 0 && AllLowerHex(digits)
  }

  function ParseBlockNumber(s: string): Option<nat> {
    ParseUint64(TrimPrefix(s, "0x"), 16)
  }

  function BlockDigits(s: string): string {
    TrimPrefix(ToLower(s), "0x")
  }

  /** A validated block number parses if and only if it is not spelled with an upper-case prefix and
      fits in 64 bits, and then to exactly the number it denotes. */
  lemma BlockNumbersParse(s: string)
    requires ValidBlockNumber(s)
    ensures ParseBlockNumber(s) ==
            if HasPrefix(s, "0X") || Value(BlockDigits(s), 16) >= 0x1_0000_0000_0000_0000 then None
            else Some(Value(BlockDigits(s), 16))
  {
    LowerPrefixes();
    if HasPrefix(ToLower(s), "0x") {
      LowersToPrefix(s);
      LowerKeepsValue(s[2..]);
      if HasPrefix(s, "0X") {
        assert s[1] == 'X' && DigitValue(s[1]) == 16;
      }
    } else {
      LowerKeepsValue(s);
      assert |s| >= 2 ==> ToLower(s)[..2] == [LowerChar(s[0]), LowerChar(s[1])];
    }
  }

  /** Parsing inverts the "0x%x" printing the backfill uses. */
  lemma BlockNumberRoundTrip(n: nat)
    requires n < 0x1_0000_0000_0000_0000
    ensures ValidBlockNumber("0x" + Digits(n, 16)) && ParseBlockNumber("0x" + Digits(n, 16)) == Some(n)
  {
    var digits := Digits(n, 16);
    DigitsDenote(n, 16);
    DigitsAreDigits(n, 16);
    LowerConcat("0x", digits);
    LowerPrefixes();
    LowerIdempotent(digits);
    assert ("0x" + digits)[2..] == digits;
  }

  // ----- Amounts -----

  const WEI: real := 1_000_000_000_000_000_000.0

  /** An ether value times 10^18, rounded to 53 bits and truncated. */
  function WeiAmount(value: real): int {
    Trunc(Round(53, value * WEI))
  }

  function Pow10(k: nat): (r: nat)
    ensures r >= 1
  {
    if k == 0 then 1 else 10 * Pow10(k - 1)
  }

  function BitLength(n: nat): nat {
    if n == 0 then 0 else 1 + BitLength(n / 2)
  }

  /** How many smallest units a token has: one if the decimals are not positive. */
  function TokenUnit(decimals: int): (r: nat)
    ensures r >= 1
  {
    if decimals <= 0 then 1 else Pow10(decimals)
  }

  /** The precision big.Float gives the unit, and so the product. */
  function TokenPrecision(decimals: int): (r: nat)
    ensures r >= 64
  {
    var bits := BitLength(TokenUnit(decimals));
    if bits > 64 then bits else 64
  }

  /** A token value times its unit, rounded to that precision and truncated. */
  function TokenAmount(value: real, decimals: int): int {
    Trunc(Round(TokenPrecision(decimals), value * TokenUnit(decimals) as real))
  }

  function GetDecimals(contract: RawContract): int {
    match contract.decimals
    case FloatDecimals(f) => Trunc(f)
    case IntDecimals(i) => i
    case TextDecimals(s) =>
      var text := TrimPrefix(s, "0x");
      (match ParseInt64(text, 16)
       case Some(n) => n
       case None => match ParseInt64(text, 10) case Some(n) => n case None => 18)
    case _ => 18
  }

  predicate IsInternal(a: Activity) {
    ToLower(a.category) == "internal" || TraceOf(a) != ""
  }

  /** Which of the five branches handles an activity, in the order they are tried. */
  datatype Kind = Ether | Token | Nft721 | Nft1155 | Unsupported

  function KindOf(a: Activity): Kind {
    var category := ToLower(a.category);
    if category == "external" || category == "internal" then Ether
    else if category == "token" || category == "erc20" || (a.rawContract.Some? && a.rawContract.value.address != "") then Token
    else if category == "erc721" then Nft721
    else if category == "erc1155" then Nft1155
    else Unsupported
  }

  /** The amount of an activity, or nothing where it lacks the field its kind needs. */
  function Amount(a: Activity): Option<int> {
    match KindOf(a)
    case Ether => (match a.value case None => None case Some(v) => Some(WeiAmount(v)))
    case Token =>
      if a.rawContract == None then None
      else
        var contract := a.rawContract.value;
        if contract.rawValue == "" then
          (match a.value case None => None case Some(v) => Some(TokenAmount(v, GetDecimals(contract))))
        else Some(match ParseSigned(TrimPrefix(contract.rawValue, "0x"), 16) case Some(n) => n case None => 0)
    case Nft721 => if a.erc721TokenId == None || a.rawContract == None then None else Some(1)
    case Nft1155 => if a.rawContract == None then None else Some(1)
    case Unsupported => None
  }

  function Currency(cfg: ProcessorConfig, a: Activity): string {
    if KindOf(a) == Ether || a.rawContract == None then "ETH"
    else
      var symbol := cfg.tokenSymbol(a.rawContract.value.address);
      if symbol != "" then symbol else if a.asset != "" then a.asset else "UNKNOWN"
  }

  function Network(cfg: ProcessorConfig, a: Activity): string {
    var suffix := if cfg.chainID == "eth-testnet" then "-TESTNET" else "";
    var inner := if IsInternal(a) then "-INTERNAL" else "";
    match KindOf(a)
    case Ether =>
      if ToLower(a.category) == "internal" then (if cfg.chainID == "eth-testnet" then "INTERNAL-TESTNET" else "INTERNAL")
      else (if cfg.chainID == "eth-testnet" then "TESTNET" else "MAINNET")
    case Token => "ERC-20" + inner + suffix
    case Nft721 => "ERC-721" + inner + suffix
    case Nft1155 => "ERC-1155" + inner + suffix
    case Unsupported => ""
  }

  /** What happens to an activity whose key has been found unprocessed. */
  function Judge(cfg: ProcessorConfig, a: Activity): Verdict {
    if !ValidBlockNumber(a.blockNum) then Rejected(InvalidBlockNumber)
    else match ParseBlockNumber(a.blockNum)
         case None => Rejected(UnparsableBlockNumber)
         case Some(block) =>
           match Amount(a)
           case None => Ignored
           case Some(amount) =>
             if amount == 0 then Ignored
             else Offered(ProcessedActivity(
                            CanonicalHash(a.hash), a.fromAddress, a.toAddress, DecimalString(amount), Currency(cfg, a),
                            ToLower(a.category), block, Network(cfg, a), IsInternal(a)))
  }

  lemma RawAmount(a: Activity)
    requires KindOf(a) == Token && a.rawContract.Some? && a.rawContract.value.rawValue != ""
    requires var digits := TrimPrefix(a.rawContract.value.rawValue, "0x"); digits != "" && AllDigits(digits, 16)
    ensures Amount(a) == Some(Value(TrimPrefix(a.rawContract.value.rawValue, "0x"), 16))
  {
    hide KindOf, TokenAmount, WeiAmount, GetDecimals;
    var digits := TrimPrefix(a.rawContract.value.rawValue, "0x");
    assert digits[0] != '-' && digits[0] != '+' by { assert DigitValue(digits[0]) < 16; }
  }

  /** For every raw token value made of hex digits, the Value string handed to the handler denotes the
      same number in decimal, has no leading zero, and a value of zero is never handed over. */
  lemma {:induction false} RawValueIsKept(cfg: ProcessorConfig, a: Activity)
    requires KindOf(a) == Token && a.rawContract.Some? && a.rawContract.value.rawValue != ""
    requires var digits := TrimPrefix(a.rawContract.value.rawValue, "0x"); digits != "" && AllDigits(digits, 16)
    ensures var number := Value(TrimPrefix(a.rawContract.value.rawValue, "0x"), 16);
            && (Judge(cfg, a).Offered? ==>
                  var printed := Judge(cfg, a).activity.value;
                  Value(printed, 10) == number && AllDigits(printed, 10) && printed[0] != '0')
            && (Judge(cfg, a).Ignored? <==> number == 0 && ParseBlockNumber(a.blockNum).Some? && ValidBlockNumber(a.blockNum))
  {
    hide Network, Currency, IsInternal, Amount, KindOf, CanonicalHash, ToLower, ValidBlockNumber, ParseBlockNumber;
    RawAmount(a);
    var number := Value(TrimPrefix(a.rawContract.value.rawValue, "0x"), 16);
    hide Value, AllDigits, TrimPrefix, Digits;
    DigitsDenote(number, 10);
    DigitsAreDigits(number, 10);
    DigitsLead(number, 10);
  }

  /** Where the code departs from its documentation: an NFT transfer that names its contract is labelled
      as a fungible token transfer, because the token branch is tried first. */
  lemma NftsWithContractAreTokens(cfg: ProcessorConfig, a: Activity)
    requires ToLower(a.category) == "erc721" || ToLower(a.category) == "erc1155"
    requires Judge(cfg, a).Offered?
    ensures KindOf(a) == Token <==> a.rawContract.value.address != ""
    ensures a.rawContract.value.address != "" ==> "ERC-20" <= Judge(cfg, a).activity.network
    ensures a.rawContract.value.address == "" ==> Judge(cfg, a).activity.value == "1"
  {
    assert Digits(1, 10) == ['1'];
  }

  // ----- What is accepted and what is handed over, in terms of the fields received -----

  /** `n` hex digits in either case, alone or after "0x" or "0X". */
  predicate SpelledHex(s: string, n: nat) {
    || (|s| == n && AllDigits(s, 16))
    || (|s| == n + 2 && (s[..2] == "0x" || s[..2] == "0X") && AllDigits(s[2..], 16))
  }

  lemma AcceptedAddresses(addr: string)
    ensures ValidAddress(addr) <==> SpelledHex(addr, 40)
  {
    ValidSpelling(addr);
  }

  /** Which activities are refused before the cache is consulted, and for which of three reasons. */
  lemma CheckedKeys(a: Activity)
    ensures !SpelledHex(a.toAddress, 40) ==> CheckKey(a) == Err(InvalidToAddress)
    ensures SpelledHex(a.toAddress, 40) && !SpelledHex(a.fromAddress, 40) ==> CheckKey(a) == Err(InvalidFromAddress)
    ensures SpelledHex(a.toAddress, 40) && SpelledHex(a.fromAddress, 40) ==>
              CheckKey(a) ==
              if exists prefix | IsHashPrefix(prefix) ::
                   |a.hash| == |prefix| + 64 && prefix <= a.hash && AllDigits(HashDigits(a.hash), 16)
              then Ok(UniqueID(a)) else Err(InvalidTransactionHash)
  {
    hide SpelledHex, ValidAddress, ValidHash, CanonicalHash, UniqueID, IsHashPrefix, HashDigits;
    AcceptedAddresses(a.toAddress);
    AcceptedAddresses(a.fromAddress);
    AcceptedHashes(a.hash);
  }

  /** A block number is valid if it is a positive number of hex digits, alone or after a prefix. */
  lemma AcceptedBlockNumbers(s: string)
    ensures ValidBlockNumber(s) <==> |s| >= 1 && (SpelledHex(s, |s|) || (|s| >= 3 && SpelledHex(s, |s| - 2)))
  {
    ValidSpelling(s);
  }

  /** What lower-casing and trimming leaves of a string is all hex digits exactly if it was spelled so. */
  lemma ValidSpelling(s: string)
    ensures var digits := TrimPrefix(ToLower(s), "0x");
            && (AllLowerHex(digits) <==> SpelledHex(s, |digits|))
            && (|digits| == |s| || |digits| == |s| - 2)
            && (AllDigits(s, 16) ==> |digits| == |s|)
            && (|s| >= 2 && (s[..2] == "0x" || s[..2] == "0X") ==> |digits| == |s| - 2)
  {
    var lowered := ToLower(s);
    LowerKeepsValue(s);
    if |s| >= 2 {
      assert lowered[..2] == [LowerChar(s[0]), LowerChar(s[1])] && s[..2] == [s[0], s[1]];
      if AllDigits(s, 16) { assert DigitValue(s[1]) < 16; }
    }
    if HasPrefix(lowered, "0x") {
      LowersToPrefix(s);
      LowerKeepsValue(s[2..]);
      assert lowered[1] == 'x';
    }
  }

  /** When a block number is refused, and for which of two reasons; otherwise its value is handed over. */
  lemma BlockNumberVerdicts(cfg: ProcessorConfig, a: Activity)
    ensures var s := a.blockNum;
            var spelled := |s| >= 1 && (SpelledHex(s, |s|) || (|s| >= 3 && SpelledHex(s, |s| - 2)));
            var fits := !HasPrefix(s, "0X") && Value(BlockDigits(s), 16) < 0x1_0000_0000_0000_0000;
            && (Judge(cfg, a) == Rejected(InvalidBlockNumber) <==> !spelled)
            && (Judge(cfg, a) == Rejected(UnparsableBlockNumber) <==> spelled && !fits)
            && (Judge(cfg, a).Rejected? <==> !spelled || !fits)
            && (Judge(cfg, a).Offered? ==> Judge(cfg, a).activity.blockNumber == Value(BlockDigits(s), 16))
  {
    hide ValidBlockNumber, ParseBlockNumber, Amount, SpelledHex, Currency, Network, DecimalString, IsInternal;
    AcceptedBlockNumbers(a.blockNum);
    if ValidBlockNumber(a.blockNum) { BlockNumbersParse(a.blockNum); }
  }

  predicate NamesContract(a: Activity) {
    a.rawContract.Some? && a.rawContract.value.address != ""
  }

  /** Which branch an activity takes, by its category in any case and by whether it names a contract. */
  lemma Kinds(a: Activity)
    ensures var c := ToLower(a.category);
            && (KindOf(a) == Ether <==> c in {"external", "internal"})
            && (KindOf(a) == Token <==> c !in {"external", "internal"} && (c in {"token", "erc20"} || NamesContract(a)))
            && (KindOf(a) == Nft721 <==> c == "erc721" && !NamesContract(a))
            && (KindOf(a) == Nft1155 <==> c == "erc1155" && !NamesContract(a))
  {
  }

  /** What an activity is ignored for: fields its kind needs, an unsupported category, or a zero amount. */
  lemma IgnoredActivities(cfg: ProcessorConfig, a: Activity)
    requires ValidBlockNumber(a.blockNum) && ParseBlockNumber(a.blockNum).Some?
    ensures KindOf(a) == Ether && a.value == None ==> Judge(cfg, a) == Ignored
    ensures KindOf(a) == Token && a.rawContract == None ==> Judge(cfg, a) == Ignored
    ensures KindOf(a) == Token && a.rawContract.Some? && a.rawContract.value.rawValue == "" && a.value == None ==>
              Judge(cfg, a) == Ignored
    ensures KindOf(a) == Nft721 ==> (Judge(cfg, a).Offered? <==> a.erc721TokenId.Some? && a.rawContract.Some?)
    ensures KindOf(a) == Nft1155 ==> (Judge(cfg, a).Offered? <==> a.rawContract.Some?)
    ensures KindOf(a) in {Nft721, Nft1155} && Judge(cfg, a).Offered? ==> Judge(cfg, a).activity.value == "1"
    ensures KindOf(a) == Unsupported ==> Judge(cfg, a) == Ignored
  {
    hide KindOf, ValidBlockNumber, ParseBlockNumber, Network, Currency, IsInternal;
  }

  /** The fields handed over with every activity, whatever its kind. */
  lemma OfferedFields(cfg: ProcessorConfig, a: Activity)
    requires Judge(cfg, a).Offered?
    ensures var p := Judge(cfg, a).activity;
            && p.txHash == CanonicalHash(a.hash)
            && p.fromAddress == a.fromAddress && p.toAddress == a.toAddress
            && p.category == ToLower(a.category)
            && (p.isInternal <==> ToLower(a.category) == "internal" || TraceOf(a) != "")
  {
    hide KindOf, ValidBlockNumber, ParseBlockNumber, Network, Currency, Amount, ToLower, CanonicalHash, DecimalString;
  }

  /** The currency: ether, or the configured symbol of the contract, or else the asset, or else "UNKNOWN". */
  lemma OfferedCurrency(cfg: ProcessorConfig, a: Activity)
    requires Judge(cfg, a).Offered?
    ensures var currency := Judge(cfg, a).activity.currency;
            if ToLower(a.category) in {"external", "internal"} then currency == "ETH"
            else
              a.rawContract.Some? &&
              var symbol := cfg.tokenSymbol(a.rawContract.value.address);
              && (symbol != "" ==> currency == symbol)
              && (symbol == "" && a.asset != "" ==> currency == a.asset)
              && (symbol == "" && a.asset == "" ==> currency == "UNKNOWN")
  {
    hide ValidBlockNumber, ParseBlockNumber, Network, WeiAmount, TokenAmount, ParseSigned, DecimalString;
    Kinds(a);
  }

  /** The network label: for ether by category and chain, otherwise the token standard with a mark for
      internal calls and one for the test chain. */
  lemma OfferedNetwork(cfg: ProcessorConfig, a: Activity)
    requires Judge(cfg, a).Offered?
    ensures var c, network, test := ToLower(a.category), Judge(cfg, a).activity.network, cfg.chainID == "eth-testnet";
            && (c == "external" ==> network == if test then "TESTNET" else "MAINNET")
            && (c == "internal" ==> network == if test then "INTERNAL-TESTNET" else "INTERNAL")
            && (c !in {"external", "internal"} ==>
                  var standard := if c in {"token", "erc20"} || NamesContract(a) then "ERC-20"
                                  else if c == "erc721" then "ERC-721" else "ERC-1155";
                  network == (if TraceOf(a) == "" && !test then standard
                              else if TraceOf(a) == "" then standard + "-TESTNET"
                              else if !test then standard + "-INTERNAL" else standard + "-INTERNAL-TESTNET"))
  {
    hide ValidBlockNumber, ParseBlockNumber, Currency, WeiAmount, TokenAmount, ParseSigned, DecimalString, ToLower, TraceOf;
    Kinds(a);
    Labels("ERC-20");
    Labels("ERC-721");
    Labels("ERC-1155");
  }

  lemma Labels(standard: string)
    ensures standard + "" + "" == standard && standard + "" + "-TESTNET" == standard + "-TESTNET"
    ensures standard + "-INTERNAL" + "" == standard + "-INTERNAL"
    ensures standard + "-INTERNAL" + "-TESTNET" == standard + "-INTERNAL-TESTNET"
  {
    assert "-INTERNAL" + "-TESTNET" == "-INTERNAL-TESTNET";
    assert standard + "-INTERNAL" + "-TESTNET" == standard + ("-INTERNAL" + "-TESTNET");
  }

  // ----- The decimals of a token -----

  const MAX_INT64: int := 0x7fff_ffff_ffff_ffff

  /** Decimals that are not text: a number as it is, truncated, and 18 where there is none. */
  lemma PlainDecimals(contract: RawContract)
    ensures contract.decimals.FloatDecimals? ==> GetDecimals(contract) == Trunc(contract.decimals.f)
    ensures contract.decimals.IntDecimals? ==> GetDecimals(contract) == contract.decimals.i
    ensures contract.decimals.NoDecimals? || contract.decimals.OtherDecimals? ==> GetDecimals(contract) == 18
    ensures contract.decimals == TextDecimals("") ==> GetDecimals(contract) == 18
  {
  }

  lemma DigitsParse(digits: string, base: nat)
    requires digits != "" && AllDigits(digits, base) && base <= 16
    ensures ParseInt64(digits, base) == if Value(digits, base) <= MAX_INT64 then Some(Value(digits, base)) else None
  {
    assert DigitValue(digits[0]) < 16;
  }

  /** Decimals written in hex after "0x" are read back. */
  lemma HexDecimalsRoundTrip(contract: RawContract, n: nat)
    requires contract.decimals == TextDecimals("0x" + Digits(n, 16)) && n <= MAX_INT64
    ensures GetDecimals(contract) == n
  {
    DigitsDenote(n, 16);
    DigitsAreDigits(n, 16);
    assert ("0x" + Digits(n, 16))[2..] == Digits(n, 16);
    DigitsParse(Digits(n, 16), 16);
  }

  /** Read as hex, a decimal numeral of two digits or more denotes more. */
  lemma {:induction false} DecimalReadAsHex(n: nat)
    ensures AllDigits(Digits(n, 10), 16) && Value(Digits(n, 10), 16) >= n
    ensures Value(Digits(n, 10), 16) == n <==> n < 10
  {
    hide Value;
    if n < 10 {
      ValueSnoc("", DigitChar(n), 16);
      EmptyValue(16);
      assert "" + [DigitChar(n)] == [DigitChar(n)];
    } else {
      DecimalReadAsHex(n / 10);
      ValueSnoc(Digits(n / 10, 10), DigitChar(n % 10), 16);
    }
  }

  /** Decimals written in decimal are read as hex first: "18" means 24. They are read back exactly if they
      have one digit, or are too large to be read as hex. */
  lemma DecimalDecimalsRoundTrip(contract: RawContract, n: nat)
    requires contract.decimals == TextDecimals(Digits(n, 10)) && n <= MAX_INT64
    ensures GetDecimals(contract) == n <==> n < 10 || Value(Digits(n, 10), 16) > MAX_INT64
  {
    var digits := Digits(n, 10);
    DecimalReadAsHex(n);
    DigitsDenote(n, 10);
    DigitsAreDigits(n, 10);
    NoPrefixInDigits(digits);
    DigitsParse(digits, 16);
    DigitsParse(digits, 10);
  }

  lemma EighteenIsTwentyFour(contract: RawContract)
    requires contract.decimals == TextDecimals("18")
    ensures GetDecimals(contract) == 24
  {
    assert Value("18", 16) == 24 by {
      ValueSnoc("1", '8', 16);
      ValueSnoc("", '1', 16);
      EmptyValue(16);
      assert "1" + ['8'] == "18" && "" + ['1'] == "1";
    }
    DigitsParse("18", 16);
  }
}
