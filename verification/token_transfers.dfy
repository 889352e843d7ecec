/** SPL token transfers decoded from a transaction's instructions, with mint inference for the
    plain Transfer instruction, which does not name its mint. */
module TokenTransfers {
  import opened Wrappers

  type Byte = x: int | 0 <= x < 256

  datatype Instruction = Instruction(data: string, programIdIndex: int, accounts: seq<int>)

  /** The amount is kept as the raw 64-bit number and the decimals it is scaled by. */
  datatype TokenTransfer = TokenTransfer(
    fromUserAccount: string, toUserAccount: string, fromTokenAccount: string, toTokenAccount: string,
    amount: nat, decimals: nat, mint: string, currency: string)

  /** What decoding one transaction depends on; `decode` is base58. */
  datatype Context = Context(
    accountKeys: seq<string>, logMessages: seq<string>, tokenMints: map<string, string>, decode: string -> Option<seq<Byte>>)

  const SPL_TOKEN_PROGRAM := "TokenkegQfeZyiNwAJbNbGKPFXCWuBvf9Ss623VQ5DA"
  const TRANSFER := 3
  const TRANSFER_CHECKED := 12

  // ----- Little-endian amounts -----

  function Pow256(k: nat): nat {
    if k == 0 then 1 else 256 * Pow256(k - 1)
  }

  function ReadLittleEndian(bytes: seq<Byte>): nat {
    if bytes == [] then 0 else bytes[0] + 256 * ReadLittleEndian(bytes[1..])
  }

  function WriteLittleEndian(n: nat, k: nat): (bytes: seq<Byte>)
    ensures |bytes| == k
  {
    if k == 0 then [] else [n % 256] + WriteLittleEndian(n / 256, k - 1)
  }

  lemma {:induction false} ReadInvertsWrite(n: nat, k: nat)
    requires n < Pow256(k)
    ensures ReadLittleEndian(WriteLittleEndian(n, k)) == n
  {
    if k > 0 { ReadInvertsWrite(n / 256, k - 1); }
  }

  lemma {:induction false} WriteInvertsRead(bytes: seq<Byte>)
    ensures ReadLittleEndian(bytes) < Pow256(|bytes|)
    ensures WriteLittleEndian(ReadLittleEndian(bytes), |bytes|) == bytes
  {
    if bytes != [] {
      WriteInvertsRead(bytes[1..]);
      LowByte(bytes[0], ReadLittleEndian(bytes[1..]));
    }
  }

  lemma LowByte(low: Byte, rest: nat)
    ensures (low + 256 * rest) % 256 == low && (low + 256 * rest) / 256 == rest
  {
  }

  /** The eight bytes after the instruction type are the inverse of encoding any 64-bit amount there. */
  lemma AmountRoundTrip(kind: Byte, amount: nat, rest: seq<Byte>)
    requires amount < 0x1_0000_0000_0000_0000
    ensures var data := [kind] + WriteLittleEndian(amount, 8) + rest;
            |data| >= 9 && ReadLittleEndian(data[1..9]) == amount
  {
    assert Pow256(8) == 0x1_0000_0000_0000_0000 by {
      assert Pow256(4) == 0x1_0000_0000;
      assert Pow256(6) == 0x1_0000_0000_0000;
    }
    ReadInvertsWrite(amount, 8);
    var data := [kind] + WriteLittleEndian(amount, 8) + rest;
    assert data[1..9] == WriteLittleEndian(amount, 8);
  }

  // ----- What an instruction means -----

  predicate InRange(ctx: Context, i: int) {
    0 <= i < |ctx.accountKeys|
  }

  predicate IsTokenInstruction(ctx: Context, ins: Instruction) {
    InRange(ctx, ins.programIdIndex) && ctx.accountKeys[ins.programIdIndex] == SPL_TOKEN_PROGRAM
  }

  /** The decoded data, if there is at least a type byte. */
  function Payload(ctx: Context, ins: Instruction): (r: Option<seq<Byte>>)
    ensures r.Some? ==> |r.value| >= 1
  {
    if ins.data == "" then None
    else match ctx.decode(ins.data)
         case Some(bytes) => if |bytes| < 1 then None else Some(bytes)
         case None => None
  }

  /** A well-formed TransferChecked: source, mint, destination, owner. */
  predicate IsTransferChecked(ctx: Context, ins: Instruction) {
    var data := Payload(ctx, ins);
    && data.Some? && data.value[0] == TRANSFER_CHECKED && |data.value| >= 9 && |ins.accounts| >= 4
    && InRange(ctx, ins.accounts[0]) && InRange(ctx, ins.accounts[1]) && InRange(ctx, ins.accounts[2])
  }

  /** A well-formed Transfer: source, destination, owner. */
  predicate IsTransfer(ctx: Context, ins: Instruction) {
    var data := Payload(ctx, ins);
    && data.Some? && data.value[0] == TRANSFER && |data.value| >= 9 && |ins.accounts| >= 3
    && InRange(ctx, ins.accounts[0]) && InRange(ctx, ins.accounts[1])
  }

  predicate Configured(ctx: Context, mint: string) {
    mint != "" && mint in ctx.tokenMints.Values
  }

  predicate OccursAt(s: string, t: string, i: int) {
    0 <= i <= |t| - |s| && t[i..i + |s|] == s
  }

  predicate IsSubstring(s: string, t: string) {
    exists i | 0 <= i <= |t| - |s| :: OccursAt(s, t, i)
  }

  predicate Mentions(ctx: Context, log: string, mint: string) {
    Configured(ctx, mint) && IsSubstring(mint, log)
  }

  ghost predicate MentionsNone(ctx: Context, logs: seq<string>) {
    forall i, mint | 0 <= i < |logs| :: !Mentions(ctx, logs[i], mint)
  }

  predicate HoldsNone(ctx: Context, keys: seq<string>) {
    forall i | 0 <= i < |keys| :: !Configured(ctx, keys[i])
  }

  /** The mints a Transfer may be attributed to: a configured one in the earliest log message that
      contains any, and without such a message the earliest account key that is one. */
  ghost predicate Infers(ctx: Context, mint: string) {
    || (exists i | 0 <= i < |ctx.logMessages| ::
          MentionsNone(ctx, ctx.logMessages[..i]) && Mentions(ctx, ctx.logMessages[i], mint))
    || (MentionsNone(ctx, ctx.logMessages) &&
        exists i | 0 <= i < |ctx.accountKeys| ::
          HoldsNone(ctx, ctx.accountKeys[..i]) && Configured(ctx, mint) && ctx.accountKeys[i] == mint)
  }

  ghost predicate Inferable(ctx: Context) {
    !MentionsNone(ctx, ctx.logMessages) || !HoldsNone(ctx, ctx.accountKeys)
  }

  /** An instruction that stands for a transfer of a configured token. */
  ghost predicate Yields(ctx: Context, ins: Instruction) {
    || (IsTransferChecked(ctx, ins) && Configured(ctx, ctx.accountKeys[ins.accounts[1]]))
    || (IsTransfer(ctx, ins) && Inferable(ctx))
  }

  function Decimals(currency: string): nat {
    if currency == "USDC" || currency == "USDT" then 6 else 9
  }

  /** `t` is a transfer the instruction stands for. */
  ghost predicate Explains(ctx: Context, ins: Instruction, t: TokenTransfer)
    requires Yields(ctx, ins)
  {
    var checked := IsTransferChecked(ctx, ins);
    && t.fromUserAccount == t.fromTokenAccount == ctx.accountKeys[ins.accounts[0]]
    && t.toUserAccount == t.toTokenAccount == ctx.accountKeys[ins.accounts[if checked then 2 else 1]]
    && t.amount == ReadLittleEndian(Payload(ctx, ins).value[1..9])
    && (if checked then t.mint == ctx.accountKeys[ins.accounts[1]] else Infers(ctx, t.mint))
    && t.currency in ctx.tokenMints && ctx.tokenMints[t.currency] == t.mint
    && t.decimals == Decimals(t.currency)
  }

  function Concat(groups: seq<seq<Instruction>>): seq<Instruction> {
    if groups == [] then [] else Concat(groups[..|groups| - 1]) + groups[|groups| - 1]
  }

  /** Outer instructions, then the inner ones group by group. */
  function AllInstructions(
    instructions: seq<Instruction>, innerInstructionsNone: bool, innerInstructions: seq<seq<Instruction>>): seq<Instruction>
  {
    instructions + if innerInstructionsNone then [] else Concat(innerInstructions)
  }

  function TokenOnly(ctx: Context, all: seq<Instruction>): seq<Instruction> {
    if all == [] then []
    else TokenOnly(ctx, all[..|all| - 1]) + if IsTokenInstruction(ctx, all[|all| - 1]) then [all[|all| - 1]] else []
  }

  /** The one pass: the token instructions that stand for a transfer, in order. */
  ghost function Transferring(ctx: Context, all: seq<Instruction>): (r: seq<Instruction>)
    ensures forall i | 0 <= i < |r| :: Yields(ctx, r[i])
  {
    if all == [] then []
    else
      var last := all[|all| - 1];
      Transferring(ctx, all[..|all| - 1]) + if IsTokenInstruction(ctx, last) && Yields(ctx, last) then [last] else []
  }

  ghost predicate Matches(ctx: Context, instructions: seq<Instruction>, transfers: seq<TokenTransfer>)
    requires forall i | 0 <= i < |instructions| :: Yields(ctx, instructions[i])
  {
    && |transfers| == |instructions|
    && forall i | 0 <= i < |transfers| :: Explains(ctx, instructions[i], transfers[i])
  }

  lemma {:induction false} TokenOnlyConcat(ctx: Context, a: seq<Instruction>, b: seq<Instruction>)
    ensures TokenOnly(ctx, a + b) == TokenOnly(ctx, a) + TokenOnly(ctx, b)
  {
    if b == [] {
      assert a + b == a;
    } else {
      assert (a + b)[..|a + b| - 1] == a + b[..|b| - 1];
      TokenOnlyConcat(ctx, a, b[..|b| - 1]);
    }
  }

  /** Collecting first and decoding afterwards selects the same instructions as one pass. */
  lemma {:induction false} CollectThenDecode(ctx: Context, all: seq<Instruction>)
    ensures Transferring(ctx, TokenOnly(ctx, all)) == Transferring(ctx, all)
  {
    if all != [] {
      var before, last := all[..|all| - 1], all[|all| - 1];
      CollectThenDecode(ctx, before);
      var collected := TokenOnly(ctx, all);
      if IsTokenInstruction(ctx, last) {
        assert collected == TokenOnly(ctx, before) + [last];
        assert collected[..|collected| - 1] == TokenOnly(ctx, before) && collected[|collected| - 1] == last;
      } else {
        assert collected == TokenOnly(ctx, before);
      }
    }
  }

  predicate ConfiguredOccurs(ctx: Context, log: string) {
    exists m | m in ctx.tokenMints.Values && m != "" :: IsSubstring(m, log)
  }

  /** Without the vocabulary above: an inferred mint is a configured, non-empty one that occurs in the
      earliest log message in which any does; or if none does in any, the earliest account key that is one. */
  lemma InferredMintIsEarliest(ctx: Context, mint: string)
    ensures var logs, keys, mints := ctx.logMessages, ctx.accountKeys, ctx.tokenMints.Values;
            Infers(ctx, mint) <==>
            && mint in mints && mint != ""
            && (|| (exists i | 0 <= i < |logs| ::
                      IsSubstring(mint, logs[i]) && forall j | 0 <= j < i :: !ConfiguredOccurs(ctx, logs[j]))
                || ((forall j | 0 <= j < |logs| :: !ConfiguredOccurs(ctx, logs[j]))
                    && exists i | 0 <= i < |keys| ::
                         keys[i] == mint && forall j | 0 <= j < i :: keys[j] == "" || keys[j] !in mints))
  {
    forall i | 0 <= i <= |ctx.logMessages|
      ensures MentionsNone(ctx, ctx.logMessages[..i]) <==>
              forall j | 0 <= j < i :: !ConfiguredOccurs(ctx, ctx.logMessages[j])
    {
      NothingMentioned(ctx, i);
    }
    assert ctx.logMessages[..|ctx.logMessages|] == ctx.logMessages;
    forall i | 0 <= i <= |ctx.accountKeys|
      ensures HoldsNone(ctx, ctx.accountKeys[..i]) <==>
              forall j | 0 <= j < i :: ctx.accountKeys[j] == "" || ctx.accountKeys[j] !in ctx.tokenMints.Values
    {
      NothingHeld(ctx, i);
    }
    hide MentionsNone, HoldsNone, ConfiguredOccurs, IsSubstring;
  }

  lemma NothingMentioned(ctx: Context, i: nat)
    requires i <= |ctx.logMessages|
    ensures MentionsNone(ctx, ctx.logMessages[..i]) <==>
            forall j | 0 <= j < i :: !ConfiguredOccurs(ctx, ctx.logMessages[j])
  {
    hide IsSubstring;
    if MentionsNone(ctx, ctx.logMessages[..i]) {
      forall j | 0 <= j < i ensures !ConfiguredOccurs(ctx, ctx.logMessages[j]) {
        assert ctx.logMessages[..i][j] == ctx.logMessages[j];
        forall m | m in ctx.tokenMints.Values && m != "" ensures !IsSubstring(m, ctx.logMessages[j]) {
          assert !Mentions(ctx, ctx.logMessages[..i][j], m);
        }
      }
    }
  }

  lemma NothingHeld(ctx: Context, i: nat)
    requires i <= |ctx.accountKeys|
    ensures HoldsNone(ctx, ctx.accountKeys[..i]) <==>
            forall j | 0 <= j < i :: ctx.accountKeys[j] == "" || ctx.accountKeys[j] !in ctx.tokenMints.Values
  {
    assert forall j | 0 <= j < i :: ctx.accountKeys[..i][j] == ctx.accountKeys[j];
  }

  /** An inferred mint exists exactly when the transaction mentions or holds a configured one, and it
      always is a configured one, so its currency lookup cannot fail. */
  lemma InferredMintIsConfigured(ctx: Context)
    ensures forall mint | Infers(ctx, mint) :: Configured(ctx, mint)
    ensures Inferable(ctx) <==> exists mint :: Infers(ctx, mint)
  {
    if !MentionsNone(ctx, ctx.logMessages) {
      var mint := FirstMention(ctx, |ctx.logMessages|);
    } else if !HoldsNone(ctx, ctx.accountKeys) {
      var i := FirstHolder(ctx, |ctx.accountKeys|);
      assert Infers(ctx, ctx.accountKeys[i]);
    }
  }

  lemma {:induction false} FirstMention(ctx: Context, n: nat) returns (mint: string)
    requires n <= |ctx.logMessages| && !MentionsNone(ctx, ctx.logMessages[..n])
    ensures Infers(ctx, mint)
  {
    if MentionsNone(ctx, ctx.logMessages[..n - 1]) {
      assert ctx.logMessages[..n] == ctx.logMessages[..n - 1] + [ctx.logMessages[n - 1]];
      mint :| Mentions(ctx, ctx.logMessages[n - 1], mint);
    } else {
      mint := FirstMention(ctx, n - 1);
    }
  }

  lemma {:induction false} FirstHolder(ctx: Context, n: nat) returns (i: nat)
    requires n <= |ctx.accountKeys| && !HoldsNone(ctx, ctx.accountKeys[..n])
    ensures i < |ctx.accountKeys| && HoldsNone(ctx, ctx.accountKeys[..i]) && Configured(ctx, ctx.accountKeys[i])
  {
    if HoldsNone(ctx, ctx.accountKeys[..n - 1]) {
      i := n - 1;
      assert ctx.accountKeys[..n] == ctx.accountKeys[..n - 1] + [ctx.accountKeys[n - 1]];
    } else {
      i := FirstHolder(ctx, n - 1);
    }
  }

  lemma {:induction false} TransferringPrefix(ctx: Context, all: seq<Instruction>, i: nat)
    requires i <= |all|
    ensures Transferring(ctx, all[..i]) <= Transferring(ctx, all)
  {
    if i < |all| {
      assert all[..|all| - 1][..i] == all[..i];
      TransferringPrefix(ctx, all[..|all| - 1], i);
    } else {
      assert all[..i] == all;
    }
  }

  lemma TransferringSnoc(ctx: Context, all: seq<Instruction>, i: nat)
    requires i < |all|
    ensures Transferring(ctx, all[..i + 1]) ==
            Transferring(ctx, all[..i]) + if IsTokenInstruction(ctx, all[i]) && Yields(ctx, all[i]) then [all[i]] else []
  {
    assert all[..i + 1][..i] == all[..i];
  }

  /** How many instructions the first `n` groups hold. */
  function Offset(groups: seq<seq<Instruction>>, n: nat): nat
    requires n <= |groups|
  {
    if n == 0 then 0 else Offset(groups, n - 1) + |groups[n - 1]|
  }

  lemma {:induction false} ConcatAt(groups: seq<seq<Instruction>>, g: nat, i: nat)
    requires g < |groups| && i < |groups[g]|
    ensures Offset(groups, |groups|) == |Concat(groups)| && Offset(groups, g) + i < |Concat(groups)|
    ensures Concat(groups)[Offset(groups, g) + i] == groups[g][i]
  {
    var n := |groups| - 1;
    ConcatSize(groups[..n]);
    SameOffset(groups, n, n);
    if g < n {
      SameOffset(groups, n, g);
      ConcatAt(groups[..n], g, i);
    }
  }

  lemma {:induction false} SameOffset(groups: seq<seq<Instruction>>, n: nat, g: nat)
    requires g <= n <= |groups|
    ensures Offset(groups[..n], g) == Offset(groups, g)
  {
    if g > 0 { SameOffset(groups, n, g - 1); }
  }

  lemma {:induction false} ConcatSize(groups: seq<seq<Instruction>>)
    ensures |Concat(groups)| == Offset(groups, |groups|)
  {
    if groups != [] {
      ConcatSize(groups[..|groups| - 1]);
      SameOffset(groups, |groups| - 1, |groups| - 1);
    }
  }

  /** The instructions of a transaction: the outer ones in order, then every inner one, group by group. */
  lemma InnerComeAfterOuter(
    instructions: seq<Instruction>, innerInstructions: seq<seq<Instruction>>, g: nat, i: nat)
    requires g < |innerInstructions| && i < |innerInstructions[g]|
    ensures var all, at := AllInstructions(instructions, false, innerInstructions), Offset(innerInstructions, g) + i;
            && instructions <= all && |all| == |instructions| + Offset(innerInstructions, |innerInstructions|)
            && |instructions| + at < |all| && all[|instructions| + at] == innerInstructions[g][i]
  {
    ConcatSize(innerInstructions);
    ConcatAt(innerInstructions, g, i);
  }

  /** There are no others, and none at all where the transaction says it has no inner ones. */
  lemma NoOtherInstructions(instructions: seq<Instruction>, innerInstructions: seq<seq<Instruction>>)
    ensures AllInstructions(instructions, true, innerInstructions) == instructions
    ensures |AllInstructions(instructions, false, innerInstructions)| ==
            |instructions| + Offset(innerInstructions, |innerInstructions|)
  {
    ConcatSize(innerInstructions);
  }

  /** An instruction of the token program whose decoded data begins with the type byte `kind`. */
  predicate HasKind(ctx: Context, ins: Instruction, kind: Byte) {
    && 0 <= ins.programIdIndex < |ctx.accountKeys| && ctx.accountKeys[ins.programIdIndex] == SPL_TOKEN_PROGRAM
    && ins.data != "" && ctx.decode(ins.data).Some? && |ctx.decode(ins.data).value| >= 1
    && ctx.decode(ins.data).value[0] == kind
  }

  lemma TransferAtPlace(ctx: Context, all: seq<Instruction>, transfers: seq<TokenTransfer>, i: nat)
    requires Matches(ctx, Transferring(ctx, all), transfers) && i < |all|
    ensures var before := Transferring(ctx, all[..i]);
            if IsTokenInstruction(ctx, all[i]) && Yields(ctx, all[i])
            then Transferring(ctx, all[..i + 1]) == before + [all[i]] && |before| < |transfers|
                 && Explains(ctx, all[i], transfers[|before|])
            else Transferring(ctx, all[..i + 1]) == before
  {
    hide Explains, Yields;
    TransferringSnoc(ctx, all, i);
    TransferringPrefix(ctx, all, i + 1);
    var before, upTo := Transferring(ctx, all[..i]), Transferring(ctx, all[..i + 1]);
    if IsTokenInstruction(ctx, all[i]) && Yields(ctx, all[i]) {
      assert upTo[|before|] == all[i] == Transferring(ctx, all)[|before|];
    }
  }

  /** In the extracted transfers, a TransferChecked instruction of the token program has exactly one
      transfer, at its place in order and with its own accounts, mint, amount and a currency of that mint,
      if it is well formed and its mint is configured; any other instruction of that type adds none. */
  lemma CheckedTransfers(ctx: Context, all: seq<Instruction>, transfers: seq<TokenTransfer>, i: nat)
    requires Matches(ctx, Transferring(ctx, all), transfers)
    requires i < |all| && HasKind(ctx, all[i], 12)
    ensures var data, accounts, keys := ctx.decode(all[i].data).value, all[i].accounts, ctx.accountKeys;
            var before := Transferring(ctx, all[..i]);
            if |accounts| >= 4 && |data| >= 9 && 0 <= accounts[0] < |keys| && 0 <= accounts[1] < |keys|
               && 0 <= accounts[2] < |keys| && keys[accounts[1]] != "" && keys[accounts[1]] in ctx.tokenMints.Values
            then
              && Transferring(ctx, all[..i + 1]) == before + [all[i]] && |before| < |transfers|
              && var t := transfers[|before|];
                 && t.mint == keys[accounts[1]] && t.amount == ReadLittleEndian(data[1..9])
                 && t.fromUserAccount == keys[accounts[0]] && t.fromTokenAccount == keys[accounts[0]]
                 && t.toUserAccount == keys[accounts[2]] && t.toTokenAccount == keys[accounts[2]]
                 && t.currency in ctx.tokenMints && ctx.tokenMints[t.currency] == t.mint
                 && t.decimals == if t.currency in {"USDC", "USDT"} then 6 else 9
            else Transferring(ctx, all[..i + 1]) == before
  {
    hide Matches, Infers, Inferable;
    TransferAtPlace(ctx, all, transfers, i);
  }

  /** A plain Transfer instruction, which names no mint, has exactly one, at its place, with its own
      accounts and amount and a mint the transaction lets be inferred, if it is well formed and there is
      such a mint; any other of that type adds none. */
  lemma PlainTransfers(ctx: Context, all: seq<Instruction>, transfers: seq<TokenTransfer>, i: nat)
    requires Matches(ctx, Transferring(ctx, all), transfers)
    requires i < |all| && HasKind(ctx, all[i], 3)
    ensures var data, accounts, keys := ctx.decode(all[i].data).value, all[i].accounts, ctx.accountKeys;
            var before := Transferring(ctx, all[..i]);
            if |accounts| >= 3 && |data| >= 9 && 0 <= accounts[0] < |keys| && 0 <= accounts[1] < |keys|
               && exists mint :: Infers(ctx, mint)
            then
              && Transferring(ctx, all[..i + 1]) == before + [all[i]] && |before| < |transfers|
              && var t := transfers[|before|];
                 && Infers(ctx, t.mint) && t.amount == ReadLittleEndian(data[1..9])
                 && t.fromUserAccount == keys[accounts[0]] && t.fromTokenAccount == keys[accounts[0]]
                 && t.toUserAccount == keys[accounts[1]] && t.toTokenAccount == keys[accounts[1]]
                 && t.currency in ctx.tokenMints && ctx.tokenMints[t.currency] == t.mint
                 && t.decimals == if t.currency in {"USDC", "USDT"} then 6 else 9
            else Transferring(ctx, all[..i + 1]) == before
  {
    InferredMintIsConfigured(ctx);
    hide Matches, Infers, Inferable, Configured;
    TransferAtPlace(ctx, all, transfers, i);
  }

  /** No other instruction adds a transfer. */
  lemma OtherInstructions(ctx: Context, all: seq<Instruction>, transfers: seq<TokenTransfer>, i: nat)
    requires Matches(ctx, Transferring(ctx, all), transfers)
    requires i < |all| && !HasKind(ctx, all[i], 3) && !HasKind(ctx, all[i], 12)
    ensures Transferring(ctx, all[..i + 1]) == Transferring(ctx, all[..i])
  {
    hide Matches, Infers, Inferable, Configured;
    TransferAtPlace(ctx, all, transfers, i);
  }

  // ----- The loops -----

  class Extractor {
    const tokenMints: map<string, string>
    const decode: string -> Option<seq<Byte>>

    constructor (tokenMints: map<string, string>, decode: string -> Option<seq<Byte>>)
      ensures this.tokenMints == tokenMints && this.decode == decode
    {
      this.tokenMints := tokenMints;
      this.decode := decode;
    }

    function Ctx(accountKeys: seq<string>, logMessages: seq<string>): Context {
      Context(accountKeys, logMessages, tokenMints, decode)
    }

    /** The scan over the mints takes them in any order, as a Go map iteration does. */
    method GetCurrencyFromMint(mint: string) returns (currency: string, ok: bool)
      ensures ok <==> mint in tokenMints.Values
      ensures ok ==> currency in tokenMints && tokenMints[currency] == mint
    {
      var todo := tokenMints.Keys;
      while todo != {}
        invariant todo <= tokenMints.Keys
        invariant forall c | c in tokenMints.Keys - todo :: tokenMints[c] != mint
        decreases |todo|
      {
        var c :| c in todo;
        if tokenMints[c] == mint {
          return c, true;
        }
        todo := todo - {c};
      }
      return "", false;
    }

    /** The hand-written window scan. */
    method Contains(logMsg: string, mintAddr: string) returns (found: bool)
      requires |logMsg| >= |mintAddr|
      ensures found <==> IsSubstring(mintAddr, logMsg)
    {
      var i := 0;
      while i <= |logMsg| - |mintAddr|
        invariant 0 <= i
        invariant forall j | 0 <= j < i :: !OccursAt(mintAddr, logMsg, j)
      {
        if logMsg[i..i + |mintAddr|] == mintAddr {
          assert OccursAt(mintAddr, logMsg, i);
          return true;
        }
        i := i + 1;
      }
      return false;
    }

    method MintInLog(ghost ctx: Context, logMsg: string) returns (mintAccount: string)
      requires ctx.tokenMints == tokenMints
      ensures mintAccount == "" ==> forall mint :: !Mentions(ctx, logMsg, mint)
      ensures mintAccount != "" ==> Mentions(ctx, logMsg, mintAccount)
    {
      mintAccount := "";
      var todo := tokenMints.Keys;
      while todo != {} && mintAccount == ""
        invariant todo <= tokenMints.Keys
        invariant mintAccount == "" ==> forall c | c in tokenMints.Keys - todo :: !Mentions(ctx, logMsg, tokenMints[c])
        invariant mintAccount != "" ==> Mentions(ctx, logMsg, mintAccount)
        decreases |todo|
      {
        var c :| c in todo;
        var mintAddr := tokenMints[c];
        if |logMsg| > 0 && |mintAddr| > 0 && |logMsg| >= |mintAddr| {
          var found := Contains(logMsg, mintAddr);
          if found {
            mintAccount := mintAddr;
          }
        }
        todo := todo - {c};
      }
    }

    method MintAmongKeys(ghost ctx: Context, accountKey: string) returns (mintAccount: string)
      requires ctx.tokenMints == tokenMints
      ensures mintAccount == if Configured(ctx, accountKey) then accountKey else ""
    {
      mintAccount := "";
      var todo := tokenMints.Keys;
      while todo != {}
        invariant todo <= tokenMints.Keys
        invariant forall c | c in tokenMints.Keys - todo :: tokenMints[c] != accountKey
        decreases |todo|
      {
        var c :| c in todo;
        if accountKey == tokenMints[c] {
          return tokenMints[c];
        }
        todo := todo - {c};
      }
    }

    /** Mint inference: the log messages first, then the account keys. */
    method InferMint(accountKeys: seq<string>, logMessages: seq<string>) returns (mintAccount: string)
      ensures var ctx := Ctx(accountKeys, logMessages);
              if Inferable(ctx) then Infers(ctx, mintAccount) && mintAccount != "" else mintAccount == ""
    {
      ghost var ctx := Ctx(accountKeys, logMessages);
      mintAccount := "";
      for i := 0 to |logMessages|
        invariant mintAccount == "" && MentionsNone(ctx, logMessages[..i])
      {
        mintAccount := MintInLog(ctx, logMessages[i]);
        if mintAccount != "" {
          assert !MentionsNone(ctx, logMessages) by { assert Mentions(ctx, logMessages[i], mintAccount); }
          return;
        }
        assert logMessages[..i + 1] == logMessages[..i] + [logMessages[i]];
      }
      assert logMessages[..|logMessages|] == logMessages;
      for i := 0 to |accountKeys|
        invariant mintAccount == "" && HoldsNone(ctx, accountKeys[..i])
      {
        mintAccount := MintAmongKeys(ctx, accountKeys[i]);
        if mintAccount != "" {
          return;
        }
        assert accountKeys[..i + 1] == accountKeys[..i] + [accountKeys[i]];
      }
      assert accountKeys[..|accountKeys|] == accountKeys;
    }

    /** The body of the decoding loop, up to the point where a transfer is appended. */
    method DecodeTransfer(accountKeys: seq<string>, logMessages: seq<string>, instruction: Instruction)
      returns (transfer: Option<TokenTransfer>)
      ensures var ctx := Ctx(accountKeys, logMessages);
              && (transfer.Some? <==> Yields(ctx, instruction))
              && (transfer.Some? ==> Explains(ctx, instruction, transfer.value))
    {
      ghost var ctx := Ctx(accountKeys, logMessages);
      InferredMintIsConfigured(ctx);
      if instruction.data == "" {
        return None;
      }
      var decoded := decode(instruction.data);
      if decoded == None || |decoded.value| < 1 {
        return None;
      }
      var data, n := decoded.value, |accountKeys|;
      var mintAccount, fromIdx, toIdx, amount := "", -1, -1, 0;
      if data[0] == TRANSFER_CHECKED {
        if |instruction.accounts| < 4 || |data| < 9 {
          return None;
        }
        fromIdx := instruction.accounts[0];
        var mintIdx := instruction.accounts[1];
        toIdx := instruction.accounts[2];
        if fromIdx < 0 || fromIdx >= n || mintIdx < 0 || mintIdx >= n || toIdx < 0 || toIdx >= n {
          return None;
        }
        mintAccount := accountKeys[mintIdx];
        amount := ReadLittleEndian(data[1..9]);
      } else if data[0] == TRANSFER {
        if |instruction.accounts| < 3 || |data| < 9 {
          return None;
        }
        fromIdx := instruction.accounts[0];
        toIdx := instruction.accounts[1];
        if fromIdx < 0 || fromIdx >= n || toIdx < 0 || toIdx >= n {
          return None;
        }
        amount := ReadLittleEndian(data[1..9]);
        mintAccount := InferMint(accountKeys, logMessages);
      } else {
        return None;
      }
      if mintAccount == "" {
        return None;
      }
      var from, to := accountKeys[fromIdx], accountKeys[toIdx];
      var currency, ok := GetCurrencyFromMint(mintAccount);
      if !ok {
        assert data[0] == TRANSFER_CHECKED;
        return None;
      }
      return Some(TokenTransfer(from, to, from, to, amount, Decimals(currency), mintAccount, currency));
    }

    method CollectTokenInstructions(accountKeys: seq<string>, logMessages: seq<string>, instructions: seq<Instruction>)
      returns (collected: seq<Instruction>)
      ensures collected == TokenOnly(Ctx(accountKeys, logMessages), instructions)
    {
      ghost var ctx := Ctx(accountKeys, logMessages);
      collected := [];
      for i := 0 to |instructions|
        invariant collected == TokenOnly(ctx, instructions[..i])
      {
        assert instructions[..i + 1][..i] == instructions[..i];
        var instruction := instructions[i];
        if instruction.programIdIndex < 0 || instruction.programIdIndex >= |accountKeys| {
          continue;
        }
        if accountKeys[instruction.programIdIndex] == SPL_TOKEN_PROGRAM {
          collected := collected + [instruction];
        }
      }
      assert instructions[..|instructions|] == instructions;
    }

    method CollectInner(accountKeys: seq<string>, logMessages: seq<string>, innerInstructions: seq<seq<Instruction>>)
      returns (collected: seq<Instruction>)
      ensures collected == TokenOnly(Ctx(accountKeys, logMessages), Concat(innerInstructions))
    {
      ghost var ctx := Ctx(accountKeys, logMessages);
      collected := [];
      for i := 0 to |innerInstructions|
        invariant collected == TokenOnly(ctx, Concat(innerInstructions[..i]))
      {
        assert innerInstructions[..i + 1][..i] == innerInstructions[..i];
        TokenOnlyConcat(ctx, Concat(innerInstructions[..i]), innerInstructions[i]);
        var group := CollectTokenInstructions(accountKeys, logMessages, innerInstructions[i]);
        collected := collected + group;
      }
      assert innerInstructions[..|innerInstructions|] == innerInstructions;
    }

    method DecodeAll(accountKeys: seq<string>, logMessages: seq<string>, collected: seq<Instruction>)
      returns (transfers: seq<TokenTransfer>)
      requires forall i | 0 <= i < |collected| :: IsTokenInstruction(Ctx(accountKeys, logMessages), collected[i])
      ensures var ctx := Ctx(accountKeys, logMessages); Matches(ctx, Transferring(ctx, collected), transfers)
    {
      ghost var ctx := Ctx(accountKeys, logMessages);
      transfers := [];
      for i := 0 to |collected|
        invariant Matches(ctx, Transferring(ctx, collected[..i]), transfers)
      {
        assert collected[..i + 1][..i] == collected[..i];
        var transfer := DecodeTransfer(accountKeys, logMessages, collected[i]);
        if transfer.Some? {
          transfers := transfers + [transfer.value];
        }
      }
      assert collected[..|collected|] == collected;
    }

    /** Collects the token instructions, outer before inner, and decodes them one by one. The result
        matches, one for one and in order, the instructions that stand for a transfer. */
    method ExtractTokenTransfers(
      accountKeys: seq<string>, logMessages: seq<string>, instructions: seq<Instruction>,
      innerInstructionsNone: bool, innerInstructions: seq<seq<Instruction>>)
      returns (transfers: seq<TokenTransfer>)
      ensures var ctx := Ctx(accountKeys, logMessages);
              Matches(ctx, Transferring(ctx, AllInstructions(instructions, innerInstructionsNone, innerInstructions)), transfers)
    {
      ghost var ctx := Ctx(accountKeys, logMessages);
      ghost var all := AllInstructions(instructions, innerInstructionsNone, innerInstructions);
      var collected := CollectTokenInstructions(accountKeys, logMessages, instructions);
      if !innerInstructionsNone && |innerInstructions| > 0 {
        var inner := CollectInner(accountKeys, logMessages, innerInstructions);
        TokenOnlyConcat(ctx, instructions, Concat(innerInstructions));
        collected := collected + inner;
      }
      assert collected == TokenOnly(ctx, all) by {
        if innerInstructionsNone || |innerInstructions| == 0 { assert all == instructions; }
      }
      CollectThenDecode(ctx, all);
      CollectedAreToken(ctx, all);
      transfers := DecodeAll(accountKeys, logMessages, collected);
    }
  }

  lemma {:induction false} CollectedAreToken(ctx: Context, all: seq<Instruction>)
    ensures forall i | 0 <= i < |TokenOnly(ctx, all)| :: IsTokenInstruction(ctx, TokenOnly(ctx, all)[i])
  {
    if all != [] { CollectedAreToken(ctx, all[..|all| - 1]); }
  }
}
