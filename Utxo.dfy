/** The UTXO data model (toychain/backend/src/utxo.h, utxo.cpp): inputs and
    outputs, the transaction whose id is the SHA-256 of a canonical text of
    both, and the table of unspent outputs keyed by "txId:index". */
module Utxo {

  import opened Options
  import opened Decimal
  import opened Hex

  /** A reference to output `outputIndex` of transaction `txId`, with an
      opaque signature. The struct's constructor stores its three arguments
      as given, which is what a datatype constructor does. */
  datatype TxInput = TxInput(txId: string, outputIndex: int, signature: string)

  /** An amount paid to an address (amounts are whole numbers here). */
  datatype TxOutput = TxOutput(amount: int, address: string)

  /** A SHA-256 digest: exactly 32 bytes. */
  type Digest = d: seq<Byte> | |d| == 32 witness seq(32, _ => 0)

  /** OpenSSL's `SHA256` over the bytes of a string. It is foreign code, so
      the model takes it as a parameter and knows only the digest length. */
  type Sha256 = string -> Digest

  /** A transaction never changes after construction: the C++ class has
      getters only. Building one with this constructor directly is the
      forced-id constructor, which keeps the given id and computes nothing. */
  datatype UtxoTransaction = UtxoTransaction(id: string, inputs: seq<TxInput>, outputs: seq<TxOutput>)

  // ---------------------------------------------------------------------
  // Canonical text and id

  /** `txId:outputIndex:signature` */
  function InputText(i: TxInput): string {
    i.txId + ":" + IntToDecimal(i.outputIndex) + ":" + i.signature
  }

  /** `amount:address` */
  function OutputText(o: TxOutput): string {
    IntToDecimal(o.amount) + ":" + o.address
  }

  function InputsText(ins: seq<TxInput>): string {
    if ins == [] then "" else InputsText(ins[..|ins| - 1]) + InputText(ins[|ins| - 1])
  }

  function OutputsText(outs: seq<TxOutput>): string {
    if outs == [] then "" else OutputsText(outs[..|outs| - 1]) + OutputText(outs[|outs| - 1])
  }

  /** The string that is hashed: every input's text, then "|", then every
      output's text, in order and without further separators. */
  function Preimage(ins: seq<TxInput>, outs: seq<TxOutput>): string {
    InputsText(ins) + "|" + OutputsText(outs)
  }

  /** The id of a transaction built from `ins` and `outs`: 64 lowercase hex
      characters that read back as the SHA-256 digest of the preimage. */
  function TxId(sha: Sha256, ins: seq<TxInput>, outs: seq<TxOutput>): (id: string)
    ensures |id| == 64 && IsHex(id)
    ensures HexToBytes(id) == sha(Preimage(ins, outs))
  {
    DigestToHex(sha(Preimage(ins, outs)))
  }

  /** `UTXOTransaction::calculateHash`: the preimage written by two loops,
      hashed, then written out two hex digits per digest byte. */
  method CalculateHash(sha: Sha256, ins: seq<TxInput>, outs: seq<TxOutput>) returns (h: string)
    ensures h == TxId(sha, ins, outs)
  {
    var data := WritePreimage(ins, outs);
    h := WriteDigest(sha(data));
  }

  /** The string stream of `calculateHash`: each input, "|", each output. */
  method WritePreimage(ins: seq<TxInput>, outs: seq<TxOutput>) returns (data: string)
    ensures data == Preimage(ins, outs)
  {
    var inputsText := WriteInputs(ins);
    var outputsText := WriteOutputs(outs);
    data := inputsText + "|" + outputsText;
  }

  /** The first loop of `calculateHash`. */
  method WriteInputs(ins: seq<TxInput>) returns (data: string)
    ensures data == InputsText(ins)
  {
    data := "";
    var i := 0;
    while i < |ins|
      invariant 0 <= i <= |ins|
      invariant data == InputsText(ins[..i])
    {
      InputsTextStep(ins, i);
      data := data + InputText(ins[i]);
      i := i + 1;
    }
    assert ins[..i] == ins;
  }

  /** The second loop of `calculateHash`. */
  method WriteOutputs(outs: seq<TxOutput>) returns (data: string)
    ensures data == OutputsText(outs)
  {
    data := "";
    var j := 0;
    while j < |outs|
      invariant 0 <= j <= |outs|
      invariant data == OutputsText(outs[..j])
    {
      OutputsTextStep(outs, j);
      data := data + OutputText(outs[j]);
      j := j + 1;
    }
    assert outs[..j] == outs;
  }

  lemma InputsTextStep(ins: seq<TxInput>, i: nat)
    requires i < |ins|
    ensures InputsText(ins[..i + 1]) == InputsText(ins[..i]) + InputText(ins[i])
  {
    assert ins[..i + 1][..i] == ins[..i];
  }

  lemma OutputsTextStep(outs: seq<TxOutput>, j: nat)
    requires j < |outs|
    ensures OutputsText(outs[..j + 1]) == OutputsText(outs[..j]) + OutputText(outs[j])
  {
    assert outs[..j + 1][..j] == outs[..j];
  }

  /** The hex loop of `calculateHash`: `std::setw(2)` and fill '0' per byte. */
  method WriteDigest(digest: seq<Byte>) returns (h: string)
    ensures h == DigestToHex(digest)
  {
    h := "";
    var b := 0;
    while b < |digest|
      invariant 0 <= b <= |digest|
      invariant h == DigestToHex(digest[..b])
    {
      assert digest[..b + 1][..b] == digest[..b];
      h := h + ToHexFixed(digest[b], 2);
      b := b + 1;
    }
    assert digest[..b] == digest;
  }

  /** The plain constructor: stores the inputs and outputs and sets the id to
      the computed hash, so equal inputs and outputs always give equal ids. */
  method NewTransaction(sha: Sha256, ins: seq<TxInput>, outs: seq<TxOutput>) returns (tx: UtxoTransaction)
    ensures tx.inputs == ins && tx.outputs == outs
    ensures tx.id == TxId(sha, ins, outs)
  {
    var id := CalculateHash(sha, ins, outs);
    tx := UtxoTransaction(id, ins, outs);
  }

  /** `TX[<first 8 characters of the id>...] Inputs: <n>, Outputs: <m>`. The
      text starts with the id's first (up to) eight characters and ends with
      the number of outputs, which can be read back after the last space. */
  function ToString(tx: UtxoTransaction): (r: string)
    ensures var n := Min(8, |tx.id|); |r| > 3 + n && r[..3 + n] == "TX[" + tx.id[..n]
    ensures TrailingInt(r, ' ') == Some(|tx.outputs|)
  {
    var n := Min(8, |tx.id|);
    var head := "TX[" + tx.id[..n] + "...] " + "Inputs: " + IntToDecimal(|tx.inputs|) + ", Outputs:";
    var r := head + [' '] + IntToDecimal(|tx.outputs|);
    TrailingIntRoundTrip(head, ' ', |tx.outputs|);
    assert r[..3 + n] == "TX[" + tx.id[..n];
    r
  }

  // ---------------------------------------------------------------------
  // Keys of the UTXO table

  /** `txId + ":" + std::to_string(index)`. The key reads back as the pair
      that made it, so the table holds one entry per (txId, index). */
  function MakeKey(txId: string, index: int): (k: string)
    ensures ParseKey(k) == Some((txId, index))
  {
    var k := txId + [':'] + IntToDecimal(index);
    LastSeparatorBeforeDecimal(txId, ':', index);
    assert k[..|txId|] == txId && k[|txId| + 1..] == IntToDecimal(index);
    k
  }

  /** Splits a key at its last ':'; a decimal integer contains no ':', so a
      transaction id that contains ':' is still recovered whole. */
  function ParseKey(k: string): Option<(string, int)> {
    match LastIndexOf(k, ':')
    case None => None
    case Some(p) => Some((k[..p], ParseInt(k[p + 1..])))
  }

  lemma MakeKeyInjective(t1: string, i1: int, t2: string, i2: int)
    ensures MakeKey(t1, i1) == MakeKey(t2, i2) <==> t1 == t2 && i1 == i2
  {
    if MakeKey(t1, i1) == MakeKey(t2, i2) {
      assert ParseKey(MakeKey(t1, i1)) == ParseKey(MakeKey(t2, i2));
    }
  }

  /** A key as `makeKey` builds it. */
  predicate WellFormedKey(k: string) {
    match ParseKey(k)
    case None => false
    case Some(pair) => MakeKey(pair.0, pair.1) == k
  }

  /** What the table holds for (txId, index), found through its key. */
  function Lookup(m: map<string, TxOutput>, txId: string, index: int): Option<TxOutput> {
    var k := MakeKey(txId, index);
    if k in m then Some(m[k]) else None
  }

  /** After storing `o` under (t, i), (t, i) finds `o` and every other pair
      finds what it found before. */
  lemma {:induction false} LookupAfterAdd(m: map<string, TxOutput>, t: string, i: int, o: TxOutput, t2: string, i2: int)
    ensures Lookup(m[MakeKey(t, i) := o], t2, i2) == if t2 == t && i2 == i then Some(o) else Lookup(m, t2, i2)
  {
    MakeKeyInjective(t, i, t2, i2);
  }

  /** After erasing (t, i), (t, i) finds nothing and every other pair finds
      what it found before. */
  lemma {:induction false} LookupAfterRemove(m: map<string, TxOutput>, t: string, i: int, t2: string, i2: int)
    ensures Lookup(m - {MakeKey(t, i)}, t2, i2) == if t2 == t && i2 == i then None else Lookup(m, t2, i2)
  {
    MakeKeyInjective(t, i, t2, i2);
  }

  // ---------------------------------------------------------------------
  // Balances

  /** What an output contributes to the balance of `address`. */
  function AmountFor(o: TxOutput, address: string): int {
    if o.address == address then o.amount else 0
  }

  ghost function Pick(keys: set<string>): (k: string)
    requires keys != {}
    ensures k in keys
  {
    var k :| k in keys; k
  }

  /** The amounts paid to `address` by the entries under `keys`. */
  ghost function SumFor(m: map<string, TxOutput>, keys: set<string>, address: string): int
    requires keys <= m.Keys
    decreases keys
  {
    if keys == {} then 0
    else
      var k := Pick(keys);
      AmountFor(m[k], address) + SumFor(m, keys - {k}, address)
  }

  /** The sum of the amounts paid to `address` by all entries of the table. */
  ghost function Balance(m: map<string, TxOutput>, address: string): int {
    SumFor(m, m.Keys, address)
  }

  /** The sum does not depend on the order the keys are taken in: any key can
      be taken first. */
  lemma {:induction false} SumForRemove(m: map<string, TxOutput>, keys: set<string>, address: string, k: string)
    requires keys <= m.Keys && k in keys
    ensures SumFor(m, keys, address) == AmountFor(m[k], address) + SumFor(m, keys - {k}, address)
    decreases keys
  {
    var j := Pick(keys);
    if j != k {
      SumForRemove(m, keys - {j}, address, k);
      SumForRemove(m, keys - {k}, address, j);
      assert keys - {j} - {k} == keys - {k} - {j};
    }
  }

  /** Tables that agree on `keys` have the same sum over them. */
  lemma {:induction false} SumForAgree(m1: map<string, TxOutput>, m2: map<string, TxOutput>, keys: set<string>, address: string)
    requires keys <= m1.Keys && keys <= m2.Keys
    requires forall k :: k in keys ==> m1[k] == m2[k]
    ensures SumFor(m1, keys, address) == SumFor(m2, keys, address)
    decreases keys
  {
    if keys != {} {
      var k := Pick(keys);
      SumForRemove(m2, keys, address, k);
      SumForAgree(m1, m2, keys - {k}, address);
    }
  }

  /** Storing `o` under a key replaces what was there in every balance. */
  lemma BalanceAfterPut(m: map<string, TxOutput>, k: string, o: TxOutput, address: string)
    ensures Balance(m[k := o], address)
         == Balance(m, address) - (if k in m then AmountFor(m[k], address) else 0) + AmountFor(o, address)
  {
    var m' := m[k := o];
    SumForRemove(m', m'.Keys, address, k);
    assert m'.Keys - {k} == m.Keys - {k};
    SumForAgree(m', m, m.Keys - {k}, address);
    if k in m {
      SumForRemove(m, m.Keys, address, k);
    } else {
      assert m.Keys - {k} == m.Keys;
    }
  }

  /** Erasing a key takes its amount out of the balance it belonged to. */
  lemma BalanceAfterErase(m: map<string, TxOutput>, k: string, address: string)
    ensures Balance(m - {k}, address) == Balance(m, address) - (if k in m then AmountFor(m[k], address) else 0)
  {
    var m' := m - {k};
    assert m'.Keys == m.Keys - {k};
    SumForAgree(m', m, m'.Keys, address);
    if k in m {
      SumForRemove(m, m.Keys, address, k);
    } else {
      assert m.Keys - {k} == m.Keys;
    }
  }

  /** The sum of the amounts of a list of (key, output) pairs. */
  function SumAmounts(entries: seq<(string, TxOutput)>): int {
    if entries == [] then 0 else SumAmounts(entries[..|entries| - 1]) + entries[|entries| - 1].1.amount
  }

  // ---------------------------------------------------------------------
  // The table

  /** `UTXOSet`: a map from "txId:index" to the unspent output. A map holds
      at most one output per key; the keys are only ever built by `MakeKey`,
      which callers cannot reach, so every key names a (txId, index) pair. */
  class UtxoSet {
    var utxos: map<string, TxOutput>

    ghost predicate Valid()
      reads this
    {
      forall k {:trigger WellFormedKey(k)} :: k in utxos ==> WellFormedKey(k)
    }

    constructor ()
      ensures Valid() && utxos == map[]
    {
      utxos := map[];
    }

    /** `utxos[makeKey(txId, index)] = output`: inserts, or overwrites an
        entry already under that key; no other entry changes. */
    method AddUTXO(txId: string, index: int, output: TxOutput)
      requires Valid()
      modifies this
      ensures Valid()
      ensures utxos == old(utxos)[MakeKey(txId, index) := output]
      ensures Lookup(utxos, txId, index) == Some(output)
      ensures forall t, i :: !(t == txId && i == index) ==> Lookup(utxos, t, i) == Lookup(old(utxos), t, i)
    {
      utxos := utxos[MakeKey(txId, index) := output];
      forall t, i | !(t == txId && i == index)
        ensures Lookup(utxos, t, i) == Lookup(old(utxos), t, i)
      {
        LookupAfterAdd(old(utxos), txId, index, output, t, i);
      }
    }

    /** `utxos.erase(makeKey(txId, index)) > 0`: reports whether the entry
        was there; afterwards it is gone and no other entry changes. */
    method RemoveUTXO(txId: string, index: int) returns (found: bool)
      requires Valid()
      modifies this
      ensures Valid()
      ensures found <==> Lookup(old(utxos), txId, index).Some?
      ensures utxos == old(utxos) - {MakeKey(txId, index)}
      ensures Lookup(utxos, txId, index) == None
      ensures forall t, i :: !(t == txId && i == index) ==> Lookup(utxos, t, i) == Lookup(old(utxos), t, i)
    {
      var k := MakeKey(txId, index);
      found := k in utxos;
      utxos := utxos - {k};
      forall t, i | !(t == txId && i == index)
        ensures Lookup(utxos, t, i) == Lookup(old(utxos), t, i)
      {
        LookupAfterRemove(old(utxos), txId, index, t, i);
      }
    }

    method HasUTXO(txId: string, index: int) returns (present: bool)
      ensures present <==> Lookup(utxos, txId, index).Some?
    {
      present := MakeKey(txId, index) in utxos;
    }

    /** `utxos.at(makeKey(txId, index))`; `None` stands for the
        `std::out_of_range` that `at` throws for a missing key. */
    method GetUTXO(txId: string, index: int) returns (r: Option<TxOutput>)
      ensures r == Lookup(utxos, txId, index)
    {
      var k := MakeKey(txId, index);
      if k in utxos {
        r := Some(utxos[k]);
      } else {
        r := None;
      }
    }

    /** Walks the entries in the map's own (unspecified) order, adding the
        amount of each entry paid to `address`. */
    method GetBalance(address: string) returns (balance: int)
      ensures balance == Balance(utxos, address)
      ensures utxos == map[] ==> balance == 0
    {
      balance := 0;
      var remaining := utxos.Keys;
      while remaining != {}
        invariant remaining <= utxos.Keys
        invariant balance + SumFor(utxos, remaining, address) == Balance(utxos, address)
        decreases remaining
      {
        var k :| k in remaining;
        SumForRemove(utxos, remaining, address, k);
        if utxos[k].address == address {
          balance := balance + utxos[k].amount;
        }
        remaining := remaining - {k};
      }
    }

    /** The entries paid to `address`, each once, in the map's own order;
        their amounts add up to `GetBalance(address)`, and every key names
        the (txId, index) pair it was stored under. */
    method GetUTXOsForAddress(address: string) returns (result: seq<(string, TxOutput)>)
      requires Valid()
      ensures forall e :: e in result <==> e.0 in utxos && utxos[e.0] == e.1 && e.1.address == address
      ensures forall e :: e in result ==> WellFormedKey(e.0)
      ensures forall i, j :: 0 <= i < j < |result| ==> result[i].0 != result[j].0
      ensures SumAmounts(result) == Balance(utxos, address)
    {
      result := [];
      var remaining := utxos.Keys;
      while remaining != {}
        invariant remaining <= utxos.Keys
        invariant forall e :: e in result <==> e.0 in utxos && e.0 !in remaining && utxos[e.0] == e.1 && e.1.address == address
        invariant forall i, j :: 0 <= i < j < |result| ==> result[i].0 != result[j].0
        invariant SumAmounts(result) + SumFor(utxos, remaining, address) == Balance(utxos, address)
        decreases remaining
      {
        var k :| k in remaining;
        SumForRemove(utxos, remaining, address, k);
        if utxos[k].address == address {
          var grown := result + [(k, utxos[k])];
          assert grown[..|grown| - 1] == result;
          assert forall i :: 0 <= i < |result| ==> result[i] in result && result[i].0 != k;
          result := grown;
        }
        remaining := remaining - {k};
      }
    }

    /** A copy of the whole table. */
    method GetAllUTXOs() returns (all: map<string, TxOutput>)
      ensures all == utxos
    {
      all := utxos;
    }
  }
}
