/**
 The Kamino script: the same pipeline, with the farms accounts of two instructions renamed before
 anything is normalised. That order is why running it on its own output can change the output.
 */
module KaminoDistill {
  import opened Outcomes
  import opened IdlTypes
  import opened SnakeCase
  import opened IdlDistill

  const DEPOSIT_V2 := "deposit_reserve_liquidity" + "_and_obligation_collateral_v2"
  const WITHDRAW_V2 := "withdraw_obligation_collateral" + "_and_redeem_reserve_collateral_v2"

  /** The new name of the farms accounts, for the two instructions that have them. */
  function ExpectedName(instruction: string): Option<string> {
    if instruction == DEPOSIT_V2 then Some("deposit_farms_accounts")
    else if instruction == WITHDRAW_V2 then Some("withdraw_farms_accounts")
    else None
  }

  predicate IsFarmsName(name: string) {
    name == "farms_accounts" || name == "farmsAccounts"
  }

  predicate IsFarmsAccount(account: Json) {
    account.Dict? && Named(account.fields) && IsFarmsName(account.fields["name"].s)
  }

  function RenameAccount(account: Json, expected: string): Json {
    if IsFarmsAccount(account) then Dict(account.fields["name" := Str(expected)]) else account
  }

  function RenameAccounts(accounts: Json, expected: string): Json {
    if accounts.List?
    then List(seq(|accounts.items|, i requires 0 <= i < |accounts.items| => RenameAccount(accounts.items[i], expected)))
    else accounts
  }

  function ExpectedFor(f: Fields): Option<string> {
    if Named(f) then ExpectedName(ToSnake(f["name"].s)) else None
  }

  /** None is the TypeError of looping over accounts that are no collection. */
  function RenameFarms(f: Fields): Option<Fields> {
    var expected := ExpectedFor(f);
    if expected.None? || "accounts" !in f then Some(f)
    else if !Iterable(f["accounts"]) then None
    else Some(f["accounts" := RenameAccounts(f["accounts"], expected.value)])
  }

  function KaminoInstruction(f: Fields, hash: string -> Json): Option<Fields> {
    var renamed := RenameFarms(f);
    if renamed.None? then None else CanonInstruction(renamed.value, hash)
  }

  /** Renames the farms accounts of a v2 instruction, whatever their position. */
  method RenameV2FarmsGroups(f: Fields) returns (result: Option<Fields>)
    ensures result == RenameFarms(f)
  {
    var expected := ExpectedFor(f);
    if expected.None? || "accounts" !in f {
      return Some(f);
    }
    if !Iterable(f["accounts"]) {
      return None;
    }
    var renamed := RenameEach(f["accounts"], expected.value);
    return Some(f["accounts" := renamed]);
  }

  method RenameEach(accounts: Json, expected: string) returns (result: Json)
    ensures result == RenameAccounts(accounts, expected)
  {
    if !accounts.List? {
      return accounts;
    }
    var items := accounts.items;
    for i := 0 to |items|
      invariant |items| == |accounts.items|
      invariant forall k | 0 <= k < |items| ::
        items[k] == if k < i then RenameAccount(accounts.items[k], expected) else accounts.items[k]
    {
      if IsFarmsAccount(items[i]) {
        items := items[i := Dict(items[i].fields["name" := Str(expected)])];
      }
    }
    return List(items);
  }

  /** Not one of the two names the rename looks for, but turned into one of them by the normalisation. */
  predicate BecomesFarms(account: Json) {
    && account.Dict? && Named(account.fields)
    && !IsFarmsName(account.fields["name"].s)
    && ToSnake(account.fields["name"].s) == "farms_accounts"
  }

  /** A dash is enough. */
  lemma DashedNameBecomesFarms()
    ensures BecomesFarms(Dict(map["name" := Str("farms-accounts")]))
  {
    var dashed := "farms-accounts";
    assert DashesToUnderscores(dashed) == "farms_accounts";
    assert "farms_accounts"[5] == '_';
    assert IsSnake("farms_accounts");
    LowerOfSnake("farms_accounts");
    assert dashed[5] == '-' && "farmsAccounts"[5] == 'A';
  }

  /** A v2 instruction with such an account. */
  predicate HasLateFarms(f: Fields) {
    && ExpectedFor(f).Some? && "accounts" in f && f["accounts"].List?
    && exists i :: 0 <= i < |f["accounts"].items| && BecomesFarms(f["accounts"].items[i])
  }

  lemma ExpectedIsNoFarmsName(instruction: string)
    ensures var expected := ExpectedName(instruction);
      expected.Some? ==> ToSnake(expected.value) != "farms_accounts" && expected.value != "farms_accounts"
  {
    var deposit, withdraw := "deposit_farms_accounts", "withdraw_farms_accounts";
    assert deposit[7] == '_' && withdraw[8] == '_';
    SnakeKeepsLength(deposit);
    SnakeKeepsLength(withdraw);
  }

  lemma SnakeKeepsLength(name: string)
    requires '_' in name
    ensures |ToSnake(name)| == |name|
  {
    var i :| 0 <= i < |name| && name[i] == '_';
    assert DashesToUnderscores(name)[i] == '_';
  }

  lemma SnakeIsNotCamel(name: string)
    ensures ToSnake(name) != "farmsAccounts"
  {
    SnakeIsSnake(name);
    assert "farmsAccounts"[5] == 'A' && IsUpper('A');
    assert 'A' in "farmsAccounts";
  }

  lemma NormalizedName(account: Json)
    ensures var normalized := NormalizeAccount(account);
      if account.Dict? && Named(account.fields) then
        normalized.Dict? && Named(normalized.fields) && normalized.fields["name"].s == ToSnake(account.fields["name"].s)
      else !(normalized.Dict? && Named(normalized.fields))
  {
  }

  /** After renaming and normalising, an account is a farms account exactly when it became one too late. */
  lemma FarmsAfterOnePass(account: Json, instruction: string)
    requires ExpectedName(instruction).Some?
    ensures IsFarmsAccount(NormalizeAccount(RenameAccount(account, ExpectedName(instruction).value)))
       <==> BecomesFarms(account)
  {
    var renamed := RenameAccount(account, ExpectedName(instruction).value);
    NormalizedName(renamed);
    ExpectedIsNoFarmsName(instruction);
    if account.Dict? && Named(account.fields) {
      SnakeIsNotCamel(renamed.fields["name"].s);
    }
  }

  /** A second pass leaves the accounts alone exactly when none of them became farms too late. */
  lemma AccountsFixedIff(accounts: Json, instruction: string)
    requires ExpectedName(instruction).Some? && accounts.List?
    ensures var expected := ExpectedName(instruction).value;
      var once := NormalizeAccounts(RenameAccounts(accounts, expected));
      if exists i :: 0 <= i < |accounts.items| && BecomesFarms(accounts.items[i])
      then NormalizeAccounts(RenameAccounts(once, expected)) != once
      else RenameAccounts(once, expected) == once
  {
    var expected := ExpectedName(instruction).value;
    var once := NormalizeAccounts(RenameAccounts(accounts, expected));
    forall i | 0 <= i < |accounts.items|
      ensures IsFarmsAccount(once.items[i]) <==> BecomesFarms(accounts.items[i])
    {
      FarmsAfterOnePass(accounts.items[i], instruction);
    }
    if i :| 0 <= i < |accounts.items| && BecomesFarms(accounts.items[i]) {
      NormalizedName(accounts.items[i]);
      NormalizedName(RenameAccount(once.items[i], expected));
      ExpectedIsNoFarmsName(instruction);
      assert NormalizeAccounts(RenameAccounts(once, expected)).items[i] != once.items[i];
    }
  }

  function RenamedAccountsOf(f: Fields): Json
    requires "accounts" in f
  {
    if ExpectedFor(f).Some? then RenameAccounts(f["accounts"], ExpectedFor(f).value) else f["accounts"]
  }

  lemma RenamedParts(f: Fields)
    requires Named(f) && RenameFarms(f).Some?
    ensures var r := RenameFarms(f).value;
      && Named(r) && r["name"] == f["name"] && ("accounts" in r <==> "accounts" in f)
      && ("accounts" in f ==> r["accounts"] == RenamedAccountsOf(f))
  {
  }

  /** What one pass makes of the name and the accounts. */
  lemma KaminoParts(f: Fields, hash: string -> Json)
    requires Named(f) && KaminoInstruction(f, hash).Some?
    ensures var g := KaminoInstruction(f, hash).value;
      && CanonInstruction(g, hash) == Some(g)
      && Named(g) && g["name"].s == ToSnake(f["name"].s) && ExpectedFor(g) == ExpectedFor(f)
      && ("accounts" in g <==> "accounts" in f)
      && ("accounts" in f ==> g["accounts"] == NormalizeAccounts(RenamedAccountsOf(f)))
  {
    RenamedParts(f);
    CanonInstructionIdempotent(RenameFarms(f).value, hash);
    SnakeIdempotent(f["name"].s);
  }

  /** One instruction is a fixed point after one pass exactly when it had no account that became farms too late. */
  lemma KaminoFixedIff(f: Fields, hash: string -> Json)
    requires Named(f) && KaminoInstruction(f, hash).Some?
    ensures KaminoInstruction(KaminoInstruction(f, hash).value, hash) == KaminoInstruction(f, hash) <==> !HasLateFarms(f)
  {
    var g := KaminoInstruction(f, hash).value;
    KaminoParts(f, hash);
    if ExpectedFor(f).Some? && "accounts" in f && f["accounts"].List? {
      AccountsFixedIff(f["accounts"], ToSnake(f["name"].s));
    }
    if HasLateFarms(f) {
      if KaminoInstruction(g, hash).Some? {
        KaminoParts(g, hash);
      }
    } else {
      RenameLeavesAlone(f, g);
    }
  }

  lemma RenameLeavesAlone(f: Fields, g: Fields)
    requires RenameFarms(f).Some? && ExpectedFor(g) == ExpectedFor(f) && ("accounts" in g <==> "accounts" in f)
    requires "accounts" in f && ExpectedFor(f).Some? ==>
      g["accounts"] == NormalizeAccounts(RenameAccounts(f["accounts"], ExpectedFor(f).value))
    requires "accounts" in f && ExpectedFor(f).Some? && f["accounts"].List? ==>
      RenameAccounts(g["accounts"], ExpectedFor(f).value) == g["accounts"]
    ensures RenameFarms(g) == Some(g)
  {
    if "accounts" in f && ExpectedFor(f).Some? {
      assert g["accounts" := g["accounts"]] == g;
    }
  }

  /**
   The Kamino pipeline is idempotent on an IDL exactly when no kept v2 instruction has an account
   that only the normalisation turns into a farms account.
   */
  lemma KaminoIdempotentIff(idl: Fields, keep: set<string>, dropAccounts: bool, hash: string -> Json)
    requires Distilled(idl, keep, dropAccounts, f => KaminoInstruction(f, hash)).Some?
    ensures DistillsToItself(Distilled(idl, keep, dropAccounts, f => KaminoInstruction(f, hash)).value,
                             keep, dropAccounts, f => KaminoInstruction(f, hash))
       <==> NoLateFarms(InstructionsOf(idl).value, keep)
  {
    var shape: Shape := f => KaminoInstruction(f, hash);
    var items := InstructionsOf(idl).value;
    KaminoNamesAreSnake(hash);
    DistillTwiceIff(idl, keep, dropAccounts, shape);
    SelectedAreShaped(items, keep, shape);
    var selected := SelectFrom(items, keep, shape).value;
    forall g | g in selected
      ensures exists ix :: ix in items && MadeFrom(g, ix, keep, hash)
    {
      var ix :| ix in items && IsKept(ix, keep) && shape(ix.fields).Some? && g == Dict(shape(ix.fields).value);
      assert MadeFrom(g, ix, keep, hash);
    }
    forall ix | ix in items && IsKept(ix, keep)
      ensures exists g :: g in selected && MadeFrom(g, ix, keep, hash)
    {
      assert MadeFrom(Dict(shape(ix.fields).value), ix, keep, hash);
    }
    FixedIffNoLateFarms(items, selected, keep, hash);
  }

  predicate NoLateFarms(items: seq<Json>, keep: set<string>) {
    forall ix | ix in items && IsKept(ix, keep) :: !HasLateFarms(ix.fields)
  }

  /** `g` is what one pass makes of a kept instruction. */
  predicate MadeFrom(g: Json, ix: Json, keep: set<string>, hash: string -> Json) {
    && IsKept(ix, keep)
    && KaminoInstruction(ix.fields, hash).Some?
    && g == Dict(KaminoInstruction(ix.fields, hash).value)
  }

  lemma FixedIffNoLateFarms(items: seq<Json>, selected: seq<Json>, keep: set<string>, hash: string -> Json)
    requires forall g | g in selected :: exists ix :: ix in items && MadeFrom(g, ix, keep, hash)
    requires forall ix | ix in items && IsKept(ix, keep) :: exists g :: g in selected && MadeFrom(g, ix, keep, hash)
    ensures AllFixed(selected, f => KaminoInstruction(f, hash)) <==> NoLateFarms(items, keep)
  {
    var shape: Shape := f => KaminoInstruction(f, hash);
    if AllFixed(selected, shape) {
      forall ix | ix in items && IsKept(ix, keep)
        ensures !HasLateFarms(ix.fields)
      {
        var g :| g in selected && MadeFrom(g, ix, keep, hash);
        KaminoFixedIff(ix.fields, hash);
        var i :| 0 <= i < |selected| && selected[i] == g;
        assert IsFixed(selected[i], shape);
      }
    }
    if NoLateFarms(items, keep) {
      forall i | 0 <= i < |selected|
        ensures IsFixed(selected[i], shape)
      {
        assert selected[i] in selected;
        var ix :| ix in items && MadeFrom(selected[i], ix, keep, hash);
        KaminoFixedIff(ix.fields, hash);
      }
    }
  }

  // ---- What is renamed ----

  /** The new name of the farms accounts goes with the instruction. */
  predicate NewFarmsName(instruction: string, name: string) {
    || (instruction == "deposit_reserve_liquidity" + "_and_obligation_collateral_v2" && name == "deposit_farms_accounts")
    || (instruction == "withdraw_obligation_collateral" + "_and_redeem_reserve_collateral_v2"
        && name == "withdraw_farms_accounts")
  }

  lemma ExpectedIff(instruction: string, name: string)
    ensures ExpectedName(instruction) == Some(name) <==> NewFarmsName(instruction, name)
  {
    assert (DEPOSIT_V2)[0] == 'd' && (WITHDRAW_V2)[0] == 'w';
  }

  /** An account called one of the two farms names gets the new name and keeps the rest; any other stays. */
  ghost predicate AccountRenamed(before: Json, after: Json, name: string) {
    if before.Dict? && "name" in before.fields
       && (before.fields["name"] == Str("farms_accounts") || before.fields["name"] == Str("farmsAccounts"))
    then
      after.Dict? && Get(after.fields, "name") == Some(Str(name))
      && forall key | key != "name" :: Get(after.fields, key) == Get(before.fields, key)
    else after == before
  }

  lemma AccountIsRenamed(account: Json, name: string)
    ensures AccountRenamed(account, RenameAccount(account, name), name)
  {
  }

  /** In a v2 instruction every account of the list is renamed where it stands. */
  lemma FarmsAreRenamed(f: Fields, name: string, g: Fields, key: string)
    requires "name" in f && f["name"].Str? && NewFarmsName(ToSnake(f["name"].s), name)
    requires RenameFarms(f) == Some(g)
    ensures key != "accounts" ==> Get(g, key) == Get(f, key)
    ensures "accounts" in g <==> "accounts" in f
    ensures "accounts" in f && f["accounts"].List? ==>
      g["accounts"].List? && |g["accounts"].items| == |f["accounts"].items|
      && forall i | 0 <= i < |f["accounts"].items| :: AccountRenamed(f["accounts"].items[i], g["accounts"].items[i], name)
  {
    ExpectedIff(ToSnake(f["name"].s), name);
    if "accounts" in f && f["accounts"].List? {
      forall i | 0 <= i < |f["accounts"].items|
        ensures AccountRenamed(f["accounts"].items[i], RenameAccount(f["accounts"].items[i], name), name)
      {
        AccountIsRenamed(f["accounts"].items[i], name);
      }
    }
  }

  /** Any other instruction is left as it is. */
  lemma OthersAreLeftAlone(f: Fields)
    requires !Named(f) || forall name :: !NewFarmsName(ToSnake(f["name"].s), name)
    ensures RenameFarms(f) == Some(f)
  {
    if Named(f) && ExpectedFor(f).Some? {
      ExpectedIff(ToSnake(f["name"].s), ExpectedFor(f).value);
    }
  }

  /** Accounts of a v2 instruction, or arguments, that Python cannot loop over are the only thing that fails. */
  lemma KaminoFailsIff(f: Fields, hash: string -> Json)
    requires Named(f)
    ensures KaminoInstruction(f, hash).None? <==>
      || ("args" in f && (f["args"].Null? || f["args"].Boolean? || f["args"].Number?))
      || ("accounts" in f && (f["accounts"].Null? || f["accounts"].Boolean? || f["accounts"].Number?)
          && exists name :: NewFarmsName(ToSnake(f["name"].s), name))
  {
    if ExpectedFor(f).Some? {
      ExpectedIff(ToSnake(f["name"].s), ExpectedFor(f).value);
    }
    if name :| NewFarmsName(ToSnake(f["name"].s), name) {
      ExpectedIff(ToSnake(f["name"].s), name);
    }
  }

  lemma KaminoNamesAreSnake(hash: string -> Json)
    ensures NamesInSnake(f => KaminoInstruction(f, hash))
  {
    var shape: Shape := f => KaminoInstruction(f, hash);
    forall f: Fields | Named(f) && shape(f).Some?
      ensures Named(shape(f).value) && shape(f).value["name"].s == ToSnake(f["name"].s)
    {
      KaminoParts(f, hash);
    }
  }

  // ---- An IDL that distils differently the second time ----

  const DASHED_ACCOUNT: Json := Dict(map["name" := Str("farms-accounts")])

  const DASHED_INSTRUCTION: Fields := map["name" := Str(DEPOSIT_V2), "accounts" := List([DASHED_ACCOUNT])]

  const DASHED_IDL: Fields := map["instructions" := List([Dict(DASHED_INSTRUCTION)])]

  lemma SnakeConcat(s: string, t: string)
    requires IsSnake(s) && IsSnake(t)
    ensures IsSnake(s + t)
  {
  }

  lemma DepositIsSnake()
    ensures IsSnake(DEPOSIT_V2) && ToSnake(DEPOSIT_V2) == DEPOSIT_V2
  {
    FirstPart();
    SecondPart();
    SnakeConcat("deposit_reserve_liquidity", "_and_obligation_collateral_v2");
    SnakeOfSnake(DEPOSIT_V2);
  }

  lemma FirstPart()
    ensures IsSnake("deposit_reserve_liquidity")
  {
  }

  lemma SecondPart()
    ensures IsSnake("_and_obligation_collateral_v2")
  {
  }

  lemma DashedInstructionIsLate()
    ensures IsKept(Dict(DASHED_INSTRUCTION), {DEPOSIT_V2}) && HasLateFarms(DASHED_INSTRUCTION)
  {
    DepositIsSnake();
    DashedNameBecomesFarms();
    assert DASHED_INSTRUCTION["accounts"].items[0] == DASHED_ACCOUNT;
  }

  lemma SelectOne(ix: Json, keep: set<string>, shape: Shape)
    requires IsKept(ix, keep) && shape(ix.fields).Some?
    ensures SelectFrom([ix], keep, shape).Some?
  {
    assert [ix][..0] == [];
    assert SelectFrom([ix][..0], keep, shape) == Some([]);
  }

  /** One kept v2 instruction with an account called `farms-accounts` is distilled, and not to a fixed point. */
  lemma DashedNameBreaksIdempotence(dropAccounts: bool, hash: string -> Json)
    ensures Distilled(DASHED_IDL, {DEPOSIT_V2}, dropAccounts, f => KaminoInstruction(f, hash)).Some?
    ensures var once := Distilled(DASHED_IDL, {DEPOSIT_V2}, dropAccounts, f => KaminoInstruction(f, hash)).value;
      !DistillsToItself(once, {DEPOSIT_V2}, dropAccounts, f => KaminoInstruction(f, hash))
  {
    DashedInstructionIsLate();
    SelectOne(Dict(DASHED_INSTRUCTION), {DEPOSIT_V2}, f => KaminoInstruction(f, hash));
    assert InstructionsOf(DASHED_IDL) == Some([Dict(DASHED_INSTRUCTION)]);
    KaminoIdempotentIff(DASHED_IDL, {DEPOSIT_V2}, dropAccounts, hash);
  }
}
