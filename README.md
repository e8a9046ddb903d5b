# Solana account bookkeeping of the HD wallet

This project models the bookkeeping of the `SolanaWallet` React component
of a hierarchical-deterministic wallet. Given a mnemonic, the component
derives one Solana account after another: account `k` along the path
`m/44'/501'/k'/0'`. It keeps:

- the wallets in the order they were added;
- a counter holding the index of the next account;
- an accordion that shows the details of at most one wallet.

When the mnemonic changes, the list is cleared and the counter restarts at 0.

The project has four modules for the component's concerns, plus `Wrappers`:

- `Wrappers`: the `Option` datatype used for error results.
- `Decimal`: the decimal rendering of a natural number (`Dec`) and its inverse (`ParseDec`). For every account index the wallet can reach, `Dec` is how the template literal renders the index. An index of 2^31 or more makes `derivePath` throw before the counter advances, so the counter never exceeds 2^31. JavaScript would use exponent notation only from 10^21 on.
- `Hex`: `Buffer.toString('hex')` as `HexEncode`, with a strict reference decoder `HexDecode`.
- `DerivationPath`: paths as lists of `(index, hardened)` segments, with their BIP-0032 text form (`Render`) and a parser (`ParsePath`). `SolanaPath` is the component's template literal. It is proved to be the rendering of purpose 44 (BIP-0044) / coin type 501 (the Solana entry of SLIP-0044) / account / change 0, every level hardened.
- `SolanaAccounts`: the class `SolanaWallet`, which holds the component's state as fields. Its invariant `Valid()` says two things:
  - `currentIndex == |wallets|`;
  - `wallets == Issued(crypto, mnemonic, currentIndex)`, so the wallet at position `k` is the wallet of account `k` of the current mnemonic.

The cryptographic libraries are modelled by a `Crypto` value given to the
constructor. It holds two opaque, deterministic functions:

- `deriveKey: (Mnemonic, string) -> Seed` covers stretching the mnemonic into a seed and walking the SLIP-0010 path (lines 28 and 30). It yields a 32-byte key.
- `ed25519Public: Seed -> PublicKey` is the ed25519 public key of such a key.

`FromSeed` builds the keypair of line 31 in tweetnacl's layout: the secret key
is the 32-byte seed followed by its public key. `PublicKeyOf` reads the public
key back from the upper half of the secret key, as line 33 does.

## Model

| member | source | states |
|---|---|---|
| `DerivationPath.SolanaPathParses` | src/components/SolanaWallet.tsx:29 | parsing the built path gives exactly four segments 44, 501, account, 0, each hardened |
| `DerivationPath.SolanaPath` | src/components/SolanaWallet.tsx:29 | the template string `m/44'/501'/${i}'/0'` is the rendering of the purpose / coin type / account / change path with every level hardened |
| `DerivationPath.SolanaPathInjective` | src/components/SolanaWallet.tsx:29 | two account indices give the same path string if and only if they are equal |
| `DerivationPath.RenderRoundTrip` | src/components/SolanaWallet.tsx:29 | every segment list, rendered as a path string and parsed back, is returned unchanged |
| `DerivationPath.RenderInjective` | src/components/SolanaWallet.tsx:29 | distinct segment lists render to distinct path strings |
| `DerivationPath.Split` | src/components/SolanaWallet.tsx:29 | splitting at `/` gives at least one part, no part contains `/`, and joining the parts with `/` gives the input back |
| `Decimal.Dec` | src/components/SolanaWallet.tsx:29 | the rendering of an index is a canonical numeral: at least one digit and no leading zero; it is one digit exactly when the index is below 10 |
| `Decimal.ParseDecOfDec` | src/components/SolanaWallet.tsx:29 | reading back the rendered index gives the index |
| `Decimal.DecOfParseDec` | src/components/SolanaWallet.tsx:29 | every canonical numeral is the rendering of its value, so rendering is a bijection onto canonical numerals |
| `Decimal.DecInjective` | src/components/SolanaWallet.tsx:29 | distinct indices render to distinct numerals |
| `Hex.HexEncode` | src/components/SolanaWallet.tsx:34 | the hex text has two characters per byte, all in `[0-9a-f]` |
| `Hex.HexDecode` | src/components/SolanaWallet.tsx:34 | a successful decode has half as many bytes as the text has characters |
| `Hex.HexRoundTrip` | src/components/SolanaWallet.tsx:34 | decoding the hex of a byte string returns that byte string |
| `Hex.HexEncodeOfDecode` | src/components/SolanaWallet.tsx:34 | a lower-case hex text that decodes is the hex of what it decodes to |
| `SolanaAccounts.NewWallet` | src/components/SolanaWallet.tsx:28-36 | a new wallet records its mnemonic; its public key is the public key of the keypair expanded from the key derived at `SolanaPath(index)`; its private key is 128 lower-case hex characters that decode to that keypair's secret key |
| `SolanaAccounts.PublicKeyOfFromSeed` | src/components/SolanaWallet.tsx:31-33 | reading the public key back from the secret key of a keypair expanded from a seed gives that keypair's public key, and the secret key starts with the seed |
| `SolanaAccounts.Issued` | src/components/SolanaWallet.tsx:36-37 | after `n` additions there are exactly `n` wallets |
| `SolanaAccounts.IssuedAt` | src/components/SolanaWallet.tsx:29-37 | the wallet at position `k` is the wallet derived at account index `k` |
| `SolanaAccounts.IssuedPrefix` | src/components/SolanaWallet.tsx:36 | each list of issued wallets is a prefix of every longer one, so added wallets never change or move |
| `SolanaAccounts.Toggled` | src/components/SolanaWallet.tsx:18-20 | after a click on `index`, something is open exactly when `index` was not open before, and what is open is `index` |
| `SolanaAccounts.ToggleTwice` | src/components/SolanaWallet.tsx:18-20 | two clicks on the same entry restore the state if and only if it was closed or that entry was open |
| `SolanaAccounts.SolanaWallet.Valid` | src/components/SolanaWallet.tsx:14-37 | the ledger invariant: the counter equals the number of wallets and the list is the issued list of the current mnemonic, so the wallet at every position `k` is the wallet of account `k` |
| `SolanaAccounts.SolanaWallet.constructor` | src/components/SolanaWallet.tsx:14-16 | a mounted component has no wallets, index 0 and nothing open, and the ledger invariant holds |
| `SolanaAccounts.SolanaWallet.AddWallet` | src/components/SolanaWallet.tsx:27-38 | appends exactly the wallet of account `currentIndex` after the existing wallets and increments the index by one; the invariant is preserved |
| `SolanaAccounts.SolanaWallet.ChangeMnemonic` | src/components/SolanaWallet.tsx:22-25 | a different mnemonic empties the list and sets the index to 0; the same mnemonic changes nothing; the invariant is preserved and the accordion is untouched |
| `SolanaAccounts.SolanaWallet.Toggle` | src/components/SolanaWallet.tsx:16-20 | the open entry becomes `Toggled(old open entry, index)`, a single optional index, so at most one entry is open |
| `SolanaAccounts.WalletAtIndex` | src/components/SolanaWallet.tsx:29-36 | under the invariant, the private key of wallet `k` decodes to the secret key of account `k`'s keypair, and its public key is that keypair's public key |
| `SolanaAccounts.SameMnemonicSameWallets` | src/components/SolanaWallet.tsx:28-36 | two ledgers with the same libraries, the same mnemonic and the same number of additions hold identical wallet lists |
| `SolanaAccounts.ChangeMnemonicThenAddWallet` | src/components/SolanaWallet.tsx:22-37 | after a change to a different mnemonic, the next addition produces exactly the wallet of account 0 of the new mnemonic |

## Left out

- Rendering, CSS, `alert` and clipboard writes (lines 40-124): these are user interface and I/O. In particular, the component shows the "Add Wallet" button only for a non-empty mnemonic (lines 40-42), and the model does not restrict `AddWallet` to that case.
- `mnemonicToSeed`, `derivePath`, `nacl.sign.keyPair.fromSeed` and `Keypair.fromSecretKey` (lines 28, 30, 31, 33): these are foreign cryptographic libraries, represented only by the two opaque deterministic functions of `Crypto`; only tweetnacl's secret-key layout (seed followed by public key) is modelled. The model makes no claim about published SLIP-0010 test vectors. Line 30 passes `seed.toString()`, not the hex of the seed.
- Asynchrony and stale closures: `addWallet` reads `wallets` and `currentIndex` across an `await`, so rapid clicks could reuse an index. The model treats each operation as sequential and atomic.
- Base58 rendering of the public key (lines 61, 91): it is done by a library class that is not part of this model.
- `DerivationPath.SolanaPath`: no bound of 2^31 is checked on the account index, because the component performs none. An index of 2^31 or more makes `derivePath` throw, because the hardened index no longer fits its 32-bit encoding, so the counter never exceeds 2^31; that failure and the bound are not modelled.
- `Hex.HexDecode` is a strict reference decoder used to state the round trip. It is not Node's lenient `Buffer.from(s, 'hex')`.
- src/components/WalletGenerator.tsx: mnemonic generation uses library randomness, copying uses the clipboard and a timer, and its accordion is a bare boolean negation. None of it is modelled.
- Ethereum derivation and mnemonic checksum validation: none of the files this model covers implements them.
