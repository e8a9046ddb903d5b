/**
 * The account bookkeeping of the `SolanaWallet` component: a ledger of
 * wallets derived one account index after another from the active
 * mnemonic, cleared whenever the mnemonic changes, and the accordion that
 * keeps at most one wallet's details open.
 */
module SolanaAccounts {
  import opened Wrappers
  import opened Hex
  import opened DerivationPath

  type Mnemonic = string

  /** The 32-byte key that path derivation hands to the ed25519 keypair expansion. */
  type Seed = s: seq<byte> | |s| == 32 witness seq(32, _ => 0)

  type PublicKey = s: seq<byte> | |s| == 32 witness seq(32, _ => 0)

  type SecretKey = s: seq<byte> | |s| == 64 witness seq(64, _ => 0)

  /**
   * The key-derivation libraries, whose internals are not modelled: seed
   * stretching of the mnemonic followed by derivation along a path string,
   * giving a 32-byte key, and the ed25519 public key of such a key. Both are
   * deterministic functions.
   */
  datatype Crypto = Crypto(deriveKey: (Mnemonic, string) -> Seed, ed25519Public: Seed -> PublicKey)

  /** A signing keypair as tweetnacl lays it out. */
  datatype NaclKeypair = NaclKeypair(publicKey: PublicKey, secretKey: SecretKey)

  /** The keypair expanded from a seed: the secret key is the seed followed by its public key. */
  function FromSeed(ed25519Public: Seed -> PublicKey, seed: Seed): NaclKeypair {
    NaclKeypair(ed25519Public(seed), seed + ed25519Public(seed))
  }

  /** The public key stored in the upper half of a secret key. */
  function PublicKeyOf(secretKey: SecretKey): PublicKey {
    secretKey[32..]
  }

  /** Reading the public key back from an expanded secret key gives the keypair's public key. */
  lemma PublicKeyOfFromSeed(ed25519Public: Seed -> PublicKey, seed: Seed)
    ensures PublicKeyOf(FromSeed(ed25519Public, seed).secretKey) == FromSeed(ed25519Public, seed).publicKey
    ensures FromSeed(ed25519Public, seed).secretKey[..32] == seed
  {
    var kp := FromSeed(ed25519Public, seed);
    assert kp.secretKey == seed + kp.publicKey;
    assert kp.secretKey[32..] == kp.publicKey;
  }

  datatype Wallet = Wallet(publicKey: PublicKey, privateKey: string, mnemonic: Mnemonic)

  /** The keypair of account `index` of `mnemonic`. */
  function KeypairAt(crypto: Crypto, mnemonic: Mnemonic, index: nat): NaclKeypair {
    FromSeed(crypto.ed25519Public, crypto.deriveKey(mnemonic, SolanaPath(index)))
  }

  /** The wallet for account `index` of `mnemonic`. */
  function NewWallet(crypto: Crypto, mnemonic: Mnemonic, index: nat): (w: Wallet)
    ensures w.mnemonic == mnemonic
    ensures w.publicKey == KeypairAt(crypto, mnemonic, index).publicKey
    ensures HexDecode(w.privateKey) == Some(KeypairAt(crypto, mnemonic, index).secretKey)
    ensures |w.privateKey| == 128 && IsLowerHex(w.privateKey)
  {
    var keypair := KeypairAt(crypto, mnemonic, index);
    HexRoundTrip(keypair.secretKey);
    PublicKeyOfFromSeed(crypto.ed25519Public, crypto.deriveKey(mnemonic, SolanaPath(index)));
    Wallet(PublicKeyOf(keypair.secretKey), HexEncode(keypair.secretKey), mnemonic)
  }

  /** The wallets of the first `n` accounts of `mnemonic`, in index order. */
  function Issued(crypto: Crypto, mnemonic: Mnemonic, n: nat): (ws: seq<Wallet>)
    ensures |ws| == n
  {
    if n == 0 then [] else Issued(crypto, mnemonic, n - 1) + [NewWallet(crypto, mnemonic, n - 1)]
  }

  /** Every position of the issued list holds the wallet of that account index. */
  lemma IssuedAtAll(crypto: Crypto, mnemonic: Mnemonic, n: nat)
    ensures forall k :: 0 <= k < n ==> Issued(crypto, mnemonic, n)[k] == NewWallet(crypto, mnemonic, k)
  {
    forall k | 0 <= k < n
      ensures Issued(crypto, mnemonic, n)[k] == NewWallet(crypto, mnemonic, k)
    {
      IssuedAt(crypto, mnemonic, n, k);
    }
  }

  /** The wallet at position k was derived at account index k. */
  lemma {:induction false} IssuedAt(crypto: Crypto, mnemonic: Mnemonic, n: nat, k: nat)
    requires k < n
    ensures Issued(crypto, mnemonic, n)[k] == NewWallet(crypto, mnemonic, k)
  {
    if k < n - 1 {
      IssuedAt(crypto, mnemonic, n - 1, k);
    }
  }

  /** Issuing more accounts only extends the list: earlier wallets keep their place. */
  lemma {:induction false} IssuedPrefix(crypto: Crypto, mnemonic: Mnemonic, m: nat, n: nat)
    requires m <= n
    ensures Issued(crypto, mnemonic, m) == Issued(crypto, mnemonic, n)[..m]
    decreases n
  {
    if m < n {
      IssuedPrefix(crypto, mnemonic, m, n - 1);
      assert Issued(crypto, mnemonic, n)[..n - 1] == Issued(crypto, mnemonic, n - 1);
    }
  }

  /** The accordion state after a click on entry `index`. */
  function Toggled(open: Option<nat>, index: nat): (r: Option<nat>)
    ensures r.Some? <==> open != Some(index)
    ensures r.Some? ==> r.value == index
  {
    if open == Some(index) then None else Some(index)
  }

  /** Two clicks on the same entry restore the state exactly when it was closed or that entry. */
  lemma ToggleTwice(open: Option<nat>, index: nat)
    ensures Toggled(Toggled(open, index), index) == open <==> (open == None || open == Some(index))
  {
  }

  class SolanaWallet {
    /** The key-derivation libraries, fixed for the component's lifetime. */
    const crypto: Crypto
    /** The mnemonic the component currently receives. */
    var mnemonic: Mnemonic
    /** The account index the next wallet is derived at. */
    var currentIndex: nat
    /** The wallets added so far, oldest first. */
    var wallets: seq<Wallet>
    /** The entry whose details are shown, if any. */
    var openIndex: Option<nat>

    /**
     * The ledger invariant: the counter equals the number of wallets, and
     * the wallet at position k is the one of account k of the current mnemonic.
     */
    ghost predicate Valid()
      reads this`mnemonic, this`currentIndex, this`wallets
      ensures Valid() ==> forall k :: 0 <= k < |wallets| ==> wallets[k] == NewWallet(crypto, mnemonic, k)
    {
      IssuedAtAll(crypto, mnemonic, currentIndex);
      currentIndex == |wallets| && wallets == Issued(crypto, mnemonic, currentIndex)
    }

    /** Mounting the component: no wallets, index 0, nothing open. */
    constructor (crypto: Crypto, mnemonic: Mnemonic)
      ensures Valid()
      ensures this.crypto == crypto && this.mnemonic == mnemonic
      ensures wallets == [] && currentIndex == 0 && openIndex == None
    {
      this.crypto := crypto;
      this.mnemonic := mnemonic;
      currentIndex := 0;
      wallets := [];
      openIndex := None;
    }

    /** Derives the wallet of the current index, appends it and advances the index. */
    method AddWallet()
      requires Valid()
      modifies this`currentIndex, this`wallets
      ensures Valid()
      ensures wallets == old(wallets) + [NewWallet(crypto, mnemonic, old(currentIndex))]
      ensures currentIndex == old(currentIndex) + 1
    {
      var path := SolanaPath(currentIndex);
      var derivedSeed := crypto.deriveKey(mnemonic, path);
      var keypair := FromSeed(crypto.ed25519Public, derivedSeed);
      var publicKey := PublicKeyOf(keypair.secretKey);
      var privateKey := HexEncode(keypair.secretKey);
      wallets := wallets + [Wallet(publicKey, privateKey, mnemonic)];
      currentIndex := currentIndex + 1;
    }

    /**
     * A new mnemonic prop. The reset effect runs only when the value differs
     * from the previous one; it empties the list and restarts the index,
     * and leaves the accordion alone.
     */
    method ChangeMnemonic(m: Mnemonic)
      requires Valid()
      modifies this`mnemonic, this`currentIndex, this`wallets
      ensures Valid() && mnemonic == m
      ensures m != old(mnemonic) ==> wallets == [] && currentIndex == 0
      ensures m == old(mnemonic) ==> wallets == old(wallets) && currentIndex == old(currentIndex)
    {
      if m != mnemonic {
        mnemonic := m;
        wallets := [];
        currentIndex := 0;
      }
    }

    /** A click on the header of entry `index`. */
    method Toggle(index: nat)
      modifies this`openIndex
      ensures openIndex == Toggled(old(openIndex), index)
    {
      openIndex := if openIndex == Some(index) then None else Some(index);
    }
  }

  /** Under the ledger invariant, the keys shown for wallet k are those of the keypair of account k. */
  lemma WalletAtIndex(ledger: SolanaWallet, k: nat)
    requires ledger.Valid() && k < |ledger.wallets|
    ensures HexDecode(ledger.wallets[k].privateKey) == Some(KeypairAt(ledger.crypto, ledger.mnemonic, k).secretKey)
    ensures ledger.wallets[k].publicKey == KeypairAt(ledger.crypto, ledger.mnemonic, k).publicKey
  {
  }

  /** Two valid ledgers with the same libraries, mnemonic and count hold the same wallets. */
  lemma SameMnemonicSameWallets(a: SolanaWallet, b: SolanaWallet)
    requires a.Valid() && b.Valid()
    requires a.crypto == b.crypto && a.mnemonic == b.mnemonic && a.currentIndex == b.currentIndex
    ensures a.wallets == b.wallets
  {
  }

  /** After a change of mnemonic, the first wallet added is account 0 of the new mnemonic. */
  method ChangeMnemonicThenAddWallet(ledger: SolanaWallet, m: Mnemonic)
    requires ledger.Valid() && m != ledger.mnemonic
    modifies ledger
    ensures ledger.Valid()
    ensures ledger.wallets == [NewWallet(ledger.crypto, m, 0)] && ledger.currentIndex == 1
  {
    ledger.ChangeMnemonic(m);
    ledger.AddWallet();
  }
}
