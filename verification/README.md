# Secure two-party computation, modelled in Dafny

This project models the core of a Go code base of exercises in secure two-party computation. It proves properties of that model. Each module follows one Go package or file:

- **Bytes, BigEndian, Hex, Errors**: the byte-level helpers the protocols lean on.
  - bytewise XOR that fails on unequal lengths;
  - `big.Int` to and from big-endian bytes;
  - `encoding/hex`;
  - the `Result`/`Option` types that model Go's panics and returned errors.
- **HashPrg, Matrices, Eklundh** (`project/utils`): the SHA-256 counter hash and its bit-length trimming, the AES-GCM seed-counter pseudo-random generator, the byte-matrix helpers (transpose, divide into square blocks, merge), and Eklundh's in-place block transpose.
- **ModArith, ElGamal** (`project/elgamal`):
  - modular arithmetic with concrete exponentiation;
  - modular inverse by the extended Euclidean algorithm;
  - ElGamal over a safe-prime group: parameter set-up, key generation, the oblivious "fake" key, encryption and decryption.
- **OTBasic**: 1-out-of-2 oblivious transfer from ElGamal, with the receiver choosing one real and one oblivious key.
- **OTExtReceiver, OTExtSender, OTExtProtocol**: the IKNP oblivious-transfer extension.
  - base OTs on k seeds;
  - the T, U and Q matrices;
  - the transpose;
  - the masked message pairs;
  - the end-to-end theorem that every receiver gets exactly its chosen message.
- **BloodTypes** (the blood-type tables of handin4, handin5 and handin6, which are identical): the 8 x 8 compatibility table, the bit extraction, and the Boolean circuit of handin4.
- **OTTT** (handin2): the one-time truth table.
  - The dealer shifts a random table.
  - Alice and Bob exchange masked indices.
  - The protocol computes the table's entry.
- **Beaver** (`external/deleteFile.go`): two-party evaluation of the blood-type circuit by XOR sharing with dealer-supplied Beaver triples.
- **DHE, DHEParties** (handin6): somewhat-homomorphic encryption over the integers and the parties of the handin6 protocol.
  - `Encrypt` draws its random subset from the key indices 0..n-1. The code as written draws from 1..n, so coin n-1 set indexes past the n-entry key and panics; that version is `DHE.EncryptAsWritten`.
  - The protocol theorem is proved over the corrected `Encrypt`: under the noise bound the run answers as the table does.
- **Garbled, GarbledBob** (handin5): Yao garbling.
  - hex-string labels;
  - gates garbled with a shuffled table;
  - the 11-gate blood-type circuit;
  - Bob, the garbler, encoding his input.

Randomness (`crypto/rand` draws) is passed in as a parameter, each draw stated to lie in its range. SHA-256 and AES-GCM sealing are function-typed parameters. SHA-256 is assumed only to give 32 bytes. The seal is assumed to succeed and give a non-empty output: the intended generator `HashPrg.Prg` rests on that, and `HashPrg.PrgAsWritten` models the call as the code makes it, which always panics. `*big.Int` values are Dafny's unbounded `int`; Go's fixed-width integer operations are written out where they matter (`uint8` casts, `%` truncation toward zero). An explicit `panic`, a returned `error`, or a Go runtime panic the code relies on becomes an `Err` result. An index the caller always keeps in range becomes a `requires`.

## Model

| member | source | states |
|---|---|---|
| HashPrg.ByteLength | project/utils/utils.go:89-94 | at least one byte, and for a positive bit length exactly the bytes that hold it: 8(n-1) < length <= 8n |
| HashPrg.MaskLow | project/utils/utils.go:114 | `b & ((1 << rb) - 1)` is b mod 2^rb: below 2^rb, never above b, and b itself when b already fits rb bits |
| HashPrg.TrimToLength | project/utils/utils.go:111-115 | fails exactly when Go's truncating `length % 8` is negative (a negative shift panics); otherwise every byte but the last is unchanged, nothing changes when length % 8 = 0, and otherwise the last byte becomes MaskLow(last, length % 8), its value mod 2^(length % 8) |
| HashPrg.TrimIdempotent | project/utils/utils.go:111-115 | trimming a trimmed string changes nothing |
| HashPrg.HashLoop | project/utils/utils.go:96-107 | the loop collects whole 32-byte digests, at least byteLength and fewer than byteLength + 32 bytes, starting with the digest of the data itself; nothing when enough is collected |
| HashPrg.HashLoopPrefix | project/utils/utils.go:100-107 | the digest stream for a smaller target is a prefix of the stream for a larger one |
| HashPrg.HashLoopBlocks | project/utils/utils.go:96-107 | byte i of the collected digests is byte i mod 32 of the digest of the data extended by the i/32 counter bytes `byte(len(fullHash))` appended before it |
| HashPrg.HashStream | project/utils/utils.go:96-115 | the trimmed first ByteLength(length) bytes are the digest stream, the last one masked by MaskLow when length % 8 != 0 |
| HashPrg.StreamFirstDigest | project/utils/utils.go:100-102 | the first 32 bytes of the stream are the digest of the data itself |
| HashPrg.Hash | project/utils/utils.go:83-118 | fails exactly for a negative Go remainder; otherwise ByteLength(length) bytes, byte i being byte i mod 32 of SHA-256 of the data followed by i/32 running-length counter bytes (so the first 32 are SHA-256 of the data), and the last byte masked by MaskLow to length % 8 bits when length % 8 != 0; the input is a value and is not modified |
| HashPrg.HashExtends | project/utils/utils.go:83-118 | a hash to a whole number of bytes is a prefix of every longer hash of the same data |
| HashPrg.RandomBits | project/utils/utils.go:130-153 | fails exactly for a negative Go remainder; otherwise ByteLength(length) bytes, all but the last as drawn, the last as drawn when length % 8 = 0 and MaskLow(last, length % 8) otherwise |
| HashPrg.RandomBitsRange | project/utils/utils.go:130-153 | for a positive length the output equals the draw exactly when the draw already fits length bits |
| HashPrg.BitAt | project/utils/utils.go:69 | `(b >> (7 - i)) & 1` is a bit |
| HashPrg.BlockBits | project/utils/utils.go:67-72 | the bits of one sealed block, most significant first, capped at the number still needed |
| HashPrg.SealSeeds | project/utils/utils.go:56-66 | the block of seed value v is the AES-GCM seal of v's big-endian bytes under the fixed key |
| HashPrg.PrgLoop | project/utils/utils.go:64-77 | exactly `need` entries, each 0 or 1 |
| HashPrg.PrgLoopStream | project/utils/utils.go:64-77 | the loop from a seed yields the first `need` bits of the blocks of that seed and the following ones, block after block |
| HashPrg.StreamStep | project/utils/utils.go:64-77 | one outer iteration: the current block's bits followed by the loop from the next seed read the stream from this seed |
| HashPrg.Prg | project/utils/utils.go:49-80 | an error exactly when bitLength <= 0; otherwise bitLength entries, each 0 or 1: the first bitLength bits of the blocks sealed, under the key of the initial seed's big-endian bytes, from the bytes of seed, seed + 1, ..., one after the other, most significant bit of each byte first (in particular the first block's bits) |
| HashPrg.GcmSeal | project/utils/utils.go:56-66 | succeeds exactly for an AES key size (16, 24 or 32 bytes) and a 12-byte nonce, and then gives the oracle's seal of the plaintext; a bad key panics on the nil block, a bad nonce in `Seal` |
| HashPrg.PrgAsWritten | project/utils/utils.go:49-80 | as written the generator never returns bits: the length error for bitLength <= 0, as Prg, and otherwise the panic of the first seal, whose nonce is nil |
| HashPrg.PrgAsWrittenPanics | project/utils/utils.go:56-66 | for every positive length, seed and oracle the code as written panics where the intended generator gives bitLength bits |
| HashPrg.PrgLoopPrefix | project/utils/utils.go:64-77 | asking the loop for fewer bits gives a prefix of the longer output |
| HashPrg.PrgPrefix | project/utils/utils.go:49-80 | the generator is a function of the seed: the same seed gives the same bits, and a shorter request a prefix of a longer one |
| Matrices.TransposeMatrix | project/utils/utils.go:490-501 | a len(matrix[0]) x len(matrix) matrix with new[i][j] = matrix[j][i] |
| Matrices.TransposeInvolution | project/utils/utils.go:490-501 | on non-empty rectangular input, transposing twice gives the matrix back |
| Matrices.PadMatrix | project/utils/utils.go:505-514 | a size x size matrix holding the input where it reaches and zeros elsewhere |
| Matrices.UnpadMatrix | project/utils/utils.go:517-523 | the rows x cols top-left corner |
| Matrices.UnpadPad | project/utils/utils.go:505-523 | unpadMatrix(padMatrix(M, n), rows, cols) = M whenever n covers rows and cols |
| Matrices.DeepCopyMatrix | project/utils/utils.go:545-559 | nil for an empty matrix, otherwise len(matrix) rows of len(matrix[0]) entries copying each row's prefix, zero beyond it |
| Matrices.DeepCopyRectangular | project/utils/utils.go:545-559 | a rectangular matrix is copied exactly |
| Matrices.MakeSubMatrix | project/utils/utils.go:388-395 | the rectangle [rowStart, rowEnd) x [colStart, colEnd) of the matrix |
| Matrices.MergeSubMatrices | project/utils/utils.go:399-434 | A top-left, C top-right, B bottom-left, D bottom-right |
| Matrices.RecursiveTranspose | project/utils/utils.go:332-384 | on a square matrix whose side is a power of two the result is its transpose |
| Matrices.MergeTransposedQuadrants | project/utils/utils.go:351-382 | merging the four transposed quadrants crosswise transposes the whole matrix |
| Matrices.RecursiveTransposeIsTranspose | project/utils/utils.go:332-384 | eklundhTransposeMatrixRecursiveInner equals TransposeMatrix |
| Matrices.ColumnBlock | project/utils/utils.go:212-219 | rows x width block of the columns [start, start + width) |
| Matrices.BaseBlocks | project/utils/utils.go:208-223 | cols / rows blocks, block b holding columns [b·rows, b·rows + rows) |
| Matrices.PaddedRow | project/utils/utils.go:230-233 | the row's last cols % rows entries, zero-padded on the right to rows entries |
| Matrices.PaddedBlock | project/utils/utils.go:226-238 | len(matrix) nil rows (from `make`) followed by the padded rows |
| Matrices.DivideMatrix | project/utils/utils.go:186-241 | panics exactly when rows > cols or rows = 0 (a zero divisor); otherwise numMatrices nil entries, then the base blocks of consecutive columns, then the padded block when rows does not divide cols |
| Eklundh.SwapEntries | project/utils/utils.go:262 | the two entries (a, b) and (b, a) trade places and nothing else changes |
| Eklundh.SwapStep | project/utils/utils.go:259-265 | one swap of the innermost loop keeps the level invariant: the entries of the same s-block and the pairs swapped so far are transposed |
| Eklundh.LevelDone | project/utils/utils.go:255-268 | after all blocks at level s the matrix is transposed within every 2s-block |
| Eklundh.LevelsComplete | project/utils/utils.go:255-270 | once the block size reaches the dimension the whole matrix is transposed |
| Eklundh.EklundhTransposeInner | project/utils/utils.go:243-272 | on an n x n matrix, n a power of two, the result is the transpose |
| Eklundh.SwappedOnlyOnce | project/utils/utils.go:255-268 | a pair swapped at level s is not swapped at any larger level |
| Eklundh.SwapLevelExistsUnique | project/utils/utils.go:255-268 | every off-diagonal pair is swapped at exactly one level, the highest bit where its indices differ |
| Eklundh.TransposedBlockRow | project/utils/utils.go:313-326 | row a of transposed block b is row b·rows + a of the transpose |
| Eklundh.TransposeBlocks | project/utils/utils.go:295-299 | every block is transposed in place; the nil entries stay nil |
| Eklundh.StackBlocks | project/utils/utils.go:313-326 | stacking the transposed blocks' rows gives TransposeMatrix(M) |
| Eklundh.EklundhTranspose | project/utils/utils.go:276-329 | a panic exactly when rows > cols; otherwise, for rows a power of two dividing cols, TransposeMatrix(M) |
| Eklundh.TransposeDivided | project/utils/utils.go:295-329 | after a successful division of a matrix whose row count is a power of two dividing its column count, transposing the blocks and stacking them gives TransposeMatrix(M) |
| Eklundh.DividedBlocks | project/utils/utils.go:186-223 | an evenly divisible matrix divides into cols/rows nil blocks followed by its square column blocks in order |
| Eklundh.TransposedTail | project/utils/utils.go:295-299 | after the in-place transposes the blocks past the nil prefix are the transposes of the column blocks |
| ElGamal.Init | project/elgamal/elGamal.go:22-45 | p = 2q + 1 and g = x² mod p for the drawn x in [2, p] |
| ElGamal.InitCorrected | project/elgamal/elGamal.go:38-43 | p = 2q + 1 and g = x² mod p with x in [2, p - 2], the range the comment asks for |
| ElGamal.InitValidExceptLastDraw | project/elgamal/elGamal.go:40-43 | the parameters are valid for every draw except the last, p - 2 (x = p), where g = 0; the draw before it, p - 3 (x = p - 1), gives g = 1 |
| ElGamal.InitCorrectedValid | project/elgamal/elGamal.go:38-43 | with x in [2, p - 2] the generator is a non-zero residue other than 1 |
| ElGamal.SquareRootsOfOne | project/elgamal/elGamal.go:38-39 | modulo a prime only ±1 square to 1, so x ∉ {1, -1} gives g != 1 |
| ElGamal.MakeSecretKey | project/elgamal/elGamal.go:47-54 | sk = draw + 1 lies in [1, q - 1] |
| ElGamal.Gen | project/elgamal/elGamal.go:57-62 | the key is g^sk mod p, in [0, p) |
| ElGamal.OGenBound | project/elgamal/elGamal.go:67-70 | 2^(2·BitLen(p)) exceeds p |
| ElGamal.OGen | project/elgamal/elGamal.go:65-80 | r mod p, in [0, p), with a zero draw replaced by 1 |
| ElGamal.OGenCoversResidues | project/elgamal/elGamal.go:65-80 | every residue in [0, p) is the oblivious key of some draw |
| ElGamal.Encode | project/elgamal/elGamal.go:87-94 | M = m + 1 exactly when (m + 1)^q ≡ 1 (mod p), otherwise M = -(m + 1) |
| ElGamal.Decode | project/elgamal/elGamal.go:119-129 | the decoded value lies in [0, p) |
| ElGamal.DecodeEncode | project/elgamal/elGamal.go:87-129 | for 0 <= m <= q - 1, M mod p <= q exactly in the m + 1 branch, and decoding returns m in both branches |
| ElGamal.Encrypt | project/elgamal/elGamal.go:85-107 | c1 = g^r mod p and c2 = M·(pk^r mod p) mod p, both in [0, p), with r = draw + 1 in [1, q - 1] |
| ElGamal.Decrypt | project/elgamal/elGamal.go:111-130 | with sk >= 1 it fails exactly when c1 has no inverse modulo p (Go's nil from Exp); the result lies in [0, p) |
| ElGamal.DecryptEncrypt | project/elgamal/elGamal.go:85-130 | Decrypt(Encrypt(m, Gen(sk)), sk) = m for every 0 <= m <= q - 1, key sk >= 1 and nonce |
| ElGamal.SharedSecret | project/elgamal/elGamal.go:101-115 | (g^sk)^r and (g^r)^sk agree modulo p |
| ElGamal.MaskCancels | project/elgamal/elGamal.go:113-117 | the mask times c1^(-sk) is 1 modulo p |
| ElGamal.EuclidLemma | project/elgamal/elGamal.go:9-11 | a prime dividing a product divides a factor |
| ModArith.Exp | project/elgamal/elGamal.go:115 | `big.Int.Exp`: b^e mod n for e >= 0; for e < 0 the inverse raised to -e, or nil when there is none |
| ModArith.BitLen | project/elgamal/elGamal.go:67 | the bit length is 0 only for 0, and 2^(r-1) <= n < 2^r |
| ModArith.ModInverse | project/elgamal/elGamal.go:114-115 | `ModInverse` as `Exp` with a negative exponent needs it: an inverse in [0, n) when one exists, nothing exactly when none does |
| ModArith.InverseUnique | project/elgamal/elGamal.go:114-115 | the inverse in [0, n) is unique |
| ModArith.PrimeInvertible | project/elgamal/elGamal.go:114-115 | modulo a prime every non-multiple is invertible |
| ModArith.GoRem | project/utils/utils.go:112 | Go's `%` truncates toward zero: a non-zero remainder has the dividend's sign, and it agrees with Dafny's `%` on non-negative dividends |
| OTBasic.ReceiverInit | project/OTBasic/OTReceiver.go:16-18 | stores the selection bits unchanged, with no keys yet |
| OTBasic.ChooseKeys | project/OTBasic/OTReceiver.go:20-49 | a panic exactly when some bit is neither 0 nor 1; otherwise one secret key in [1, q - 1] and one key pair per bit, slot b holding Gen(sk_i) and the other slot OGen() |
| OTBasic.Choose | project/OTBasic/OTReceiver.go:20-49 | exactly num_selections secret keys and key pairs, the real key in the slot the selection bit names; a panic on any non-bit; the selection bits are kept |
| OTBasic.DecryptSlot | project/OTBasic/OTReceiver.go:59-65 | slot b is decrypted for a bit b, and anything else panics |
| OTBasic.DecryptOne | project/OTBasic/OTReceiver.go:57-65 | transfer i decrypts slot selectionBits[i] with secret key i |
| OTBasic.DecryptValues | project/OTBasic/OTReceiver.go:54-65 | one integer per ciphertext pair, each the decryption of the selected slot; it fails exactly when some transfer does |
| OTBasic.FitToLength | project/OTBasic/OTReceiver.go:69-79 | exactly l bytes: a shorter encoding followed by zero bytes, a longer one cut to its first l bytes |
| OTBasic.DecryptMessage | project/OTBasic/OTReceiver.go:51-84 | one l-byte plaintext per ciphertext pair, the minimal big-endian bytes of the selected slot's decryption fitted at the end |
| OTBasic.SenderInit | project/OTBasic/OTSender.go:15-20 | stores the message pairs unchanged |
| OTBasic.ReceiveKeys | project/OTBasic/OTSender.go:22-24 | stores the key pairs unchanged and keeps the messages |
| OTBasic.EncryptPair | project/OTBasic/OTSender.go:35-47 | ciphertext 0 encrypts message 0 under key 0 and ciphertext 1 message 1 under key 1 |
| OTBasic.EncryptPairSlot | project/OTBasic/OTSender.go:42-43 | for either slot b, the slot-b ciphertext encrypts message b under key b: the two are never crossed |
| OTBasic.EncryptMessages | project/OTBasic/OTSender.go:26-51 | exactly len(Messages) pairs, pair i encrypting each message of pair i, read big-endian, under the same-numbered key; no selection bit is an input |
| OTBasic.RunTransfer | project/OTBasic/OTBasicProtocol.go:86-101 | the run Choose, ReceiveKeys, EncryptMessages, DecryptMessage yields one plaintext per message pair |
| OTBasic.TransferValue | project/OTBasic/OTReceiver.go:57-67 | on honest inputs the receiver decrypts the integer value of exactly the message its bit selects |
| OTBasic.TransferCorrect | project/OTBasic/OTBasicProtocol.go:54-108 | every honest run succeeds and returns, per transfer, the chosen message's minimal big-endian bytes fitted to l bytes |
| OTBasic.EndPaddingRoundTrip | project/OTBasic/OTReceiver.go:67-75 | an l-byte message comes back unchanged exactly when it has no leading zero byte or is all zeros |
| OTBasic.LeadingZeroMoved | project/OTBasic/OTReceiver.go:72-75 | [0, 1] comes back as [1, 0] |
| OTBasic.PadFront | project/OTBasic/OTReceiver.go:69-79 | the corrected fit: exactly l bytes, zeros in front of a short encoding, the low-order l bytes of a long one |
| OTBasic.DecryptMessageCorrected | project/OTBasic/OTReceiver.go:51-84 | as DecryptMessage, but every plaintext that fits reads back as the decrypted value |
| OTBasic.PadFrontAll | project/OTBasic/OTReceiver.go:67-81 | every value that fits l bytes reads back from its front-padded encoding |
| OTBasic.PadFrontValue | project/OTBasic/OTReceiver.go:67-79 | a value that fits l bytes reads back from its front-padded encoding |
| OTBasic.TransferCorrectedCorrect | project/OTBasic/OTReceiver.go:51-84 | with front padding every honest run returns exactly the chosen l-byte messages, leading zero bytes included |
| OTBasic.PadFrontRoundTrip | project/OTBasic/OTReceiver.go:67-79 | an l-byte string read as a number and written back with front padding is unchanged |
| BigEndian.FromBytes | project/OTBasic/OTSender.go:37-38 | `SetBytes`: the value is below 256^len |
| BigEndian.ToBytes | project/OTBasic/OTReceiver.go:67 | `Bytes()`: the minimal encoding, empty exactly for zero, with no leading zero byte |
| BigEndian.StripLeadingZeros | project/OTBasic/OTReceiver.go:67 | a suffix of the input without a leading zero byte, everything dropped being zero |
| BigEndian.ToBytesInverse | project/OTBasic/OTReceiver.go:67 | reading back the encoding of n gives n |
| BigEndian.FromBytesInverse | project/OTBasic/OTSender.go:37-38 | reading bytes and writing the number back loses exactly the leading zero bytes |
| BigEndian.ToBytesFits | project/OTBasic/OTReceiver.go:67-72 | a value read from l bytes writes back in at most l bytes |
| OTExtReceiver.Init | project/OTExtension/OTReceiver.go:24-31 | m is the number of selection bits; k, l and the bits are stored as given |
| OTExtReceiver.ChooseSeeds | project/OTExtension/OTReceiver.go:34-60 | exactly k seed pairs, each seed the draw below 2^k for its slot; nothing else changes |
| OTExtReceiver.ReceiveKeys | project/OTExtension/OTReceiver.go:63-67 | stores the k key pairs and nothing else |
| OTExtReceiver.EncryptSeeds | project/OTExtension/OTReceiver.go:70-87 | k ciphertext pairs; pair i encrypts Seed0_i under key 0 and Seed1_i under key 1 of key pair i |
| OTExtReceiver.GenerateMatrixT | project/OTExtension/OTReceiver.go:91-117 | a panic exactly when k > 0 and m = 0; otherwise an m x k matrix T whose column i is G(Seed0_i, m) |
| OTExtReceiver.GenerateAndSendMatrixU | project/OTExtension/OTReceiver.go:119-150 | a panic exactly when k > 0 and m = 0; otherwise an m x k matrix with U[j][i] = T[j][i] xor G(Seed1_i, m)[j] xor r_j, r_j cut to a byte |
| OTExtReceiver.DecryptRow | project/OTExtension/OTReceiver.go:162-185 | succeeds exactly when r_j is a bit, Hash accepts l and the picked ciphertext is as long as H(t_j, l); then the ciphertext r_j picks, xored with H(t_j, l) |
| OTExtReceiver.DecryptRows | project/OTExtension/OTReceiver.go:162-185 | the first n transfers succeed together or fail, and each result is that transfer's decryption |
| OTExtReceiver.DecryptCiphertexts | project/OTExtension/OTReceiver.go:153-187 | m plaintexts, plaintext j the decryption of transfer j; a panic exactly when some transfer fails |
| OTExtSender.Init | project/OTExtension/OTSender.go:25-32 | m is the number of message pairs; k, l and the messages are stored as given |
| OTExtSender.ChooseRandomK | project/OTExtension/OTSender.go:35-46 | s is the k bits drawn, a bit string; nothing else changes |
| OTExtSender.Choose | project/OTExtension/OTSender.go:50-79 | a panic exactly when some s_i is not a bit; otherwise k secret keys and k key pairs, the real key Gen(sk_i) in slot s_i |
| OTExtSender.DecryptSeedList | project/OTExtension/OTSender.go:88-98 | the first n base transfers: seed i is slot s_i of ciphertext pair i decrypted with secret key i |
| OTExtSender.DecryptSeeds | project/OTExtension/OTSender.go:82-100 | stores exactly the k decrypted seeds, and fails exactly when some base transfer does |
| OTExtSender.GenerateMatrixQ | project/OTExtension/OTSender.go:102-137 | a panic exactly when m > 0 and some s_i is not a bit; otherwise an m x k matrix Q with column i = G(seed_i) when s_i = 0 and U's column i xor G(seed_i) when s_i = 1 |
| OTExtSender.QRow | project/OTExtension/OTSender.go:190-212 | row i of the k x m intermediate: fails exactly when m = 0, s_i is not a bit, or s_i = 1 and row i of U has the wrong length; otherwise m bytes, entry j built like Q's |
| OTExtSender.QRows | project/OTExtension/OTSender.go:190-212 | the first n rows succeed together or fail; the result is n x m, row i being QRow i |
| OTExtSender.GenerateMatrixQTranspose | project/OTExtension/OTSender.go:178-215 | succeeds exactly when all k rows do, and then Q is the transpose of the k x m rows |
| OTExtSender.GenerateMatrixQEklundh | project/OTExtension/OTSender.go:139-176 | for k > m, or m a multiple of the power-of-two k, the single-threaded variant succeeds exactly when the rows do and k <= m (it panics whenever k > m), and then builds the same Q as the transposing variant |
| OTExtSender.EklundhFailsAtBenchmarkSize | project/OTExtension/OTSender.go:139-176 | at k = 128 and m = 4 with every row succeeding, the Eklundh variant panics while the transposing variant builds Q |
| OTExtSender.TransposeVariantEntry | project/OTExtension/OTSender.go:197-212 | entry (j, i) of the transposing variant's rows is entry (j, i) of GenerateMatrixQ's Q |
| OTExtSender.TransposeVariantAgrees | project/OTExtension/OTSender.go:102-215 | given U in k x m layout, the transposing variant yields the same sender as GenerateMatrixQ on the m x k U |
| OTExtSender.CiphertextRow | project/OTExtension/OTSender.go:225-244 | succeeds exactly when q_j is as long as s, Hash accepts l and both messages are as long as the pad; then transfer j pads x0_j with H(q_j, l) and x1_j with H(q_j xor s, l) |
| OTExtSender.CiphertextRows | project/OTExtension/OTSender.go:225-244 | the first n transfers succeed together or fail, each pair that transfer's ciphertexts |
| OTExtSender.MakeAndSendCiphertexts | project/OTExtension/OTSender.go:217-248 | m ciphertext pairs, pair j the ciphertexts of transfer j; a panic exactly when some transfer fails |
| OTExtProtocol.RandomBytes | project/OTExtension/OTExtensionProtocol.go:13-21 | the length bytes drawn |
| OTExtProtocol.AllOnesBytes | project/OTExtension/OTExtensionProtocol.go:24-30 | length bytes, every one 1 |
| OTExtProtocol.AllTwosBytes | project/OTExtension/OTExtensionProtocol.go:33-39 | length bytes, every one 2 |
| OTExtProtocol.RandomSelectionBits | project/OTExtension/OTExtensionProtocol.go:42-51 | m selection bits, each 0 or 1 |
| OTExtProtocol.BasePhase | project/OTExtension/OTExtensionProtocol.go:56-87 | after both Inits, ChooseRandomK, ChooseSeeds and the k base OTs, both parties hold k seeds, s is a bit string, and the inputs are kept |
| OTExtProtocol.MatrixPhase | project/OTExtension/OTExtensionProtocol.go:92-94 | T, U and Q are built; T and Q are m x k and nothing else changes |
| OTExtProtocol.TransferPhase | project/OTExtension/OTExtensionProtocol.go:98-101 | one plaintext per transfer |
| OTExtProtocol.RunExtension | project/OTExtension/OTExtensionProtocol.go:54-105 | the whole run yields one plaintext per selection bit |
| OTExtProtocol.BaseTransfer | project/OTExtension/OTSender.go:82-100 | base transfer i: the sender decrypts exactly the seed its bit s_i picks |
| OTExtProtocol.BasePhaseCorrect | project/OTExtension/OTExtensionProtocol.go:77-87 | with seeds below q phase 1 succeeds and the sender's seed_i is Seed_{s_i} |
| OTExtProtocol.QEntryCorrelation | project/OTExtension/OTExtensionProtocol.go:90-91 | one entry: Q[j][i] = T[j][i] xor s_i r_j |
| OTExtProtocol.CorrelationEntry | project/OTExtension/OTExtensionProtocol.go:90-91 | the same for entry (j, i) of matrices built as the three steps build them |
| OTExtProtocol.Correlation | project/OTExtension/OTExtensionProtocol.go:90-91 | every entry of Q is T[j][i] xor s_i r_j |
| OTExtProtocol.Expansions | project/OTExtension/OTReceiver.go:102-115 | a k x m matrix whose row i is G(seed_i, m) |
| OTExtProtocol.SelectionBytes | project/OTExtension/OTReceiver.go:140-146 | the selection bits cut to bytes, one per transfer |
| OTExtProtocol.MatrixSteps | project/OTExtension/OTExtensionProtocol.go:92-94 | GenerateMatrixT, GenerateAndSendMatrixU and GenerateMatrixQ leave matrices of the shape the correlation argument needs |
| OTExtProtocol.SeedColumn | project/OTExtension/OTReceiver.go:104 | the Seed0 (or Seed1) of every seed pair, in order |
| OTExtProtocol.MatrixPhaseCorrect | project/OTExtension/OTExtensionProtocol.go:89-94 | for m >= 1 phase 2 succeeds and Q[j][i] = T[j][i] xor s_i r_j for every entry |
| OTExtProtocol.RowCorrelation | project/OTExtension/OTExtensionProtocol.go:98-99 | row j of Q is t_j when r_j = 0 and t_j xor s when r_j = 1 |
| OTExtProtocol.TransferRowCorrect | project/OTExtension/OTExtensionProtocol.go:98-99 | with the correlation in place, transfer j decrypts to message r_j |
| OTExtProtocol.TransferPhaseCorrect | project/OTExtension/OTExtensionProtocol.go:98-101 | phase 3 succeeds and transfer j yields message r_j |
| OTExtProtocol.ExtensionCorrect | project/OTExtension/OTExtensionProtocol.go:54-105 | every honest run with m >= 1 succeeds, and transfer j returns the sender's message r_j |
| BloodTypes.Bit | handin6/utils.go:59-61 | `(n >> k) & 1` is always 0 or 1 |
| BloodTypes.ThreeBits | handin6/utils.go:57-64 | a type below 8 is 4 times bit 2 plus 2 times bit 1 plus bit 0 |
| BloodTypes.ExtractBits | handin6/utils.go:57-64 | three bits, most significant first, which recombine into n for 0 <= n < 8 |
| BloodTypes.Flip | handin4/utils.go:19-21 | `1 ^ b` on a bit is 1 exactly when b is 0 |
| BloodTypes.AndBits | handin4/utils.go:23-29 | `a & b` on bits is 1 exactly when both are 1 |
| BloodTypes.ComputeBloodtypeCompatibility | handin4/utils.go:16-31 | the Boolean circuit returns 0 or 1, and 1 exactly when the donor carries no antigen bit the recipient lacks |
| BloodTypes.CompatibilityTable | handin6/utils.go:16-26 | an 8 x 8 table, rows the recipient and columns the donor |
| BloodTypes.LookUpBloodType | handin6/utils.go:28-31 | the entry is 1 exactly when the donor carries no antigen bit the recipient lacks |
| BloodTypes.TableFacts | handin6/utils.go:17-26 | AB+ receives from everyone, everyone receives from O-, every type from itself, and O+ not from AB+ |
| BloodTypes.SmallBits | handin6/utils.go:59-61 | the shift-and-mask bits of a type below 8 are its binary digits |
| BloodTypes.TableIsBitsWithin | handin6/utils.go:16-31 | the lookup table is exactly the antigen rule, in both directions |
| BloodTypes.CircuitMatchesTable | handin4/utils.go:16-51 | the Boolean circuit returns 1 exactly when the table says compatible, for all 64 pairs |
| BloodTypes.BloodTypeNamesDistinct | handin6/utils.go:33-54 | the eight types have eight different names, none "Unknown" |
| BloodTypes.GetBloodTypeName | handin6/utils.go:33-54 | "Unknown" exactly outside 0..7; otherwise an "A" exactly for bit 2 set, a "B" exactly for bit 1 set, "O" exactly for both clear, and a final "+" exactly for bit 0 set |
| OTTT.Xor | handin2/utils.go:8-10 | XOR written with `||`, `&&` and `!` is true exactly when its inputs differ |
| OTTT.XorMatrix | handin2/utils.go:13-21 | entry (i, j) of the result is the XOR of the two entries (i, j) |
| OTTT.XorMatrixCancel | handin2/dealer.go:20 | XOR with the same matrix twice gives the matrix back, so M_A xor M_B is the shifted table |
| OTTT.TableFacts | handin2/utils.go:63-77 | in this table's order: AB+ receives from everyone, everyone from O-, every type from itself, O+ not from AB+ |
| OTTT.CompatibilityTable | handin2/utils.go:63-72 | AB+ receives from everyone, everyone from O-, and every type from itself |
| OTTT.LookUpBloodType | handin2/utils.go:74-77 | the entry is true exactly when the donor lacks every antigen and the Rh factor the recipient lacks |
| OTTT.TableRule | handin2/utils.go:63-77 | the table literal is exactly that antigen rule, entry by entry |
| OTTT.GetBloodTypeName | handin2/utils.go:79-100 | "Unknown" exactly outside 0..7; otherwise a final "+" exactly for bit 0 clear, an "A" exactly for bit 1 clear, a "B" exactly for bit 2 clear, and "O" exactly for both set |
| OTTT.ShiftMatrix | handin2/utils.go:23-31 | entry (i, j) of the shifted table is table entry ((i - r) mod 8, (j - s) mod 8), for r and s up to 8 |
| OTTT.Shift | handin2/utils.go:23-31 | the same cyclic shift, of any grid |
| OTTT.ShiftIndex | handin2/utils.go:27 | with Go's `%`, `(i - r + 8) % 8` is the cyclic index (i - r) mod 8 for r up to 8 |
| OTTT.ShiftLookup | handin2/utils.go:23-31 | entry ((x + r) % 8, (y + s) % 8) of any grid shifted by (r, s) is the grid's entry (x, y) |
| OTTT.ShiftBack | handin2/utils.go:27 | with Go's `%`, `((x + r) % 8 - r + 8) % 8` is x for x and r in [0, 8) |
| OTTT.GenerateRandomMatrix | handin2/utils.go:33-47 | entry (i, j) is true exactly when its draw of `rand.Intn(2)` is 1 |
| OTTT.BloodTypeNamesDistinct | handin2/utils.go:79-100 | the eight types have eight different names, none "Unknown" |
| OTTT.DealerInit | handin2/dealer.go:12-21 | r, s and M_B are the draws, and M_A xor M_B is the table shifted by (r, s) |
| OTTT.AliceInit | handin2/alice.go:12-17 | stores x, M_A and r |
| OTTT.AliceSend | handin2/alice.go:20-24 | u = (x + r) mod 8 is recorded and sent, and lies in [0, 8) when x + r >= 0 |
| OTTT.AliceReceive | handin2/alice.go:27-30 | stores v and z_B and nothing else |
| OTTT.AliceComputeOutput | handin2/alice.go:32-35 | the output is M_A[u][v] xor z_B |
| OTTT.BobInit | handin2/bob.go:10-14 | stores y, M_B and s |
| OTTT.BobReceive | handin2/bob.go:23-25 | stores u and nothing else |
| OTTT.BobSend | handin2/bob.go:16-20 | v = (y + s) mod 8 in [0, 8), and z_B = M_B[u][v] |
| OTTT.Exchange | handin2/handin2.go:11-22 | Alice's output is the XOR of the two shares at u = (x + r) % 8, v = (y + s) % 8 |
| OTTT.ExchangeMatchesTable | handin2/handin2.go:11-22 | for any dealer whose shares XOR to a grid shifted by (r, s), the exchange yields the grid's entry at the two inputs |
| OTTT.ProtocolEntry | handin2/alice.go:32-35 | the two shares at ((x + r) % 8, (y + s) % 8) XOR to grid entry (x, y) |
| OTTT.ComputeOTTT | handin2/handin2.go:4-23 | for every dealer randomness the protocol returns LookUpBloodType(recipient, donor), the table entry |
| OTTT.OTTTIndependentOfDealer | handin2/handin2.go:4-23 | the result does not depend on the dealer's randomness |
| Beaver.BobTriple | external/deleteFile.go:34-36 | Bob's w makes the two halves share u AND v |
| Beaver.DealerInit | external/deleteFile.go:20-38 | n consistent triple pairs are appended (none for n <= 0), the earlier ones are kept, and numand is n |
| Beaver.FreshDealerConsistent | external/deleteFile.go:20-38 | a fresh dealer's two lists are consistent index by index |
| Beaver.ReceiveInput | external/deleteFile.go:60-70 | Alice stores her arguments as y, Bob his as x, input0 in slot 0; nothing else changes |
| Beaver.NewParty | external/deleteFile.go:48-58 | a party in its zero state: x, y and z slots all 0, with its role and triples as given |
| Beaver.Negate | external/deleteFile.go:73-81 | a share is flipped exactly when it is Alice's |
| Beaver.FinishAnd | external/deleteFile.go:109-117 | Beaver's identity for one share: Alice's share with a whole triple is (d xor u) AND (e xor v), and Bob's share of a zero triple is 0 |
| Beaver.Phase1 | external/deleteFile.go:72-98 | three triples are consumed; z_i is NOT x_i on Alice's side and x_i on Bob's; d_i and e_i mask z_i and y_i with u and v |
| Beaver.Phase2 | external/deleteFile.go:100-132 | the three products are finished with the opened d and e and negated by Alice, and z0, z1 are masked with a fresh triple |
| Beaver.Phase3 | external/deleteFile.go:134-153 | z0 AND z1 is finished and masked with z2 under a fresh triple |
| Beaver.Phase4 | external/deleteFile.go:155-164 | the last product is finished and returned |
| Beaver.BeaverProduct | external/deleteFile.go:102-117 | with a consistent triple, the two finished shares XOR to the AND of the shared values |
| Beaver.NegatedProduct | external/deleteFile.go:102-124 | the same product, negated by Alice alone, XORs to its negation |
| Beaver.NegateShares | external/deleteFile.go:73-81 | negating by flipping only Alice's share negates the shared value |
| Beaver.OpenInputs | external/deleteFile.go:72-98 | Phase1 of both parties consumes three triples each and masks the shares of NOT x_i and y_i |
| Beaver.NegatedProducts | external/deleteFile.go:100-132 | Phase2 of both parties leaves shares of NOT(NOT x_i AND y_i) for each slot |
| Beaver.LastRounds | external/deleteFile.go:134-164 | Phase3 and Phase4 of both parties leave shares of the AND of the three slots |
| Beaver.Run | external/deleteFile.go:166-219 | with five consistent triples, the two outputs XOR to the compatibility function of the reconstructed inputs |
| Beaver.DebugExternal | external/deleteFile.go:166-219 | with Alice's x and y all 0, Bob's all 1, and five copies of the triple (0, 1, 1), the reconstructed output is 1 |
| Beaver.ConsistentTail | external/deleteFile.go:20-38 | dropping the first pair of consistent lists keeps the rest consistent |
| Beaver.ComposeRounds | external/deleteFile.go:72-164 | NOT, then NOT(NOT x_i AND y_i), then the AND of the three is the compatibility function |
| Beaver.Compatible | external/deleteFile.go:72-164 | the evaluated function is 1 exactly when no slot has y set and x clear |
| Beaver.CompatibleIsLookUp | external/deleteFile.go:166-219 | fed with the bits of two blood types, the function is 1 exactly when the handin4 circuit says compatible |
| DHE.SetLowBit | handin6/homomorphicFunctions.go:26 | `p.Or(p, 1)` gives an odd value: v itself when v is odd, v + 1 when it is even |
| DHE.GenerateKeys | handin6/homomorphicFunctions.go:21-47 | p is odd, positive and below 2^n (1 when n = 0); q_i and r_i are the draws; y_i = p q_i + 2 r_i for i < n and the slices past n are untouched |
| DHE.Subset | handin6/homomorphicFunctions.go:85-95 | an index is in the subset exactly when it lies in the range and its coin is 1 |
| DHE.SubsetIncreasing | handin6/homomorphicFunctions.go:87-93 | the subset lists its indices in strictly increasing order |
| DHE.RandomSubsetAsWritten | handin6/homomorphicFunctions.go:85-95 | as written the subset is drawn from 1..n: i is in it exactly when 1 <= i <= n and coin i - 1 is 1 |
| DHE.RandomSubset | handin6/homomorphicFunctions.go:83-84 | the evidently intended subset of the key indices 0..n-1: i is in it exactly when i < n and coin i is 1 |
| DHE.PublicKey | handin6/homomorphicFunctions.go:39-44 | entry i < n of the key is p q_i + 2 r_i and the entries past n are untouched |
| DHE.SumAtSubset | handin6/homomorphicFunctions.go:57-66 | summing the key over the subset the loop builds equals the reference sum of the entries whose coin is set |
| DHE.Encrypt | handin6/homomorphicFunctions.go:49-69 | over the corrected subset of the key indices 0..n-1: a panic exactly when m is not a bit; otherwise m plus the sum of the key entries y_i whose coin i is set |
| DHE.EncryptAsWritten | handin6/homomorphicFunctions.go:49-69 | a panic exactly when m is not a bit; otherwise, when the key has an entry y_n, the ciphertext is m plus the sum of the key entries y_(i+1) whose coin i is set, over the subset 1..n |
| DHE.AsWrittenIndexesPastEnd | handin6/homomorphicFunctions.go:57-66 | with a key of exactly n entries, a subset holding n indexes past its end, and index 0 is never used |
| DHE.AsWrittenCounterexample | handin6/homomorphicFunctions.go:85-95 | n = 1 and a coin of 1 give the subset [1], past a one-entry key |
| DHE.SumOfKeys | handin6/homomorphicFunctions.go:39-44 | summing a well-formed key over a subset of 0..n-1 gives p times the q-sum plus twice the r-sum, both non-negative |
| DHE.EncryptNoise | handin6/homomorphicFunctions.go:49-69 | a ciphertext of a bit m is congruent modulo p to m plus its non-negative even noise |
| DHE.ShiftCongruent | handin6/homomorphicFunctions.go:73 | adding a non-negative multiple of p keeps the residue and does not decrease the value |
| DHE.Decrypt | handin6/homomorphicFunctions.go:71-81 | `(c mod p) mod 2` is 0 or 1 |
| DHE.DecryptNoisy | handin6/homomorphicFunctions.go:71-81 | a ciphertext whose noisy plaintext v lies in [0, p) decrypts to the parity of v |
| DHE.DecryptEncrypt | handin6/homomorphicFunctions.go:49-81 | decryption recovers the bit whenever the bit plus its noise stays below p |
| DHE.XorCarries | handin6/homomorphicFunctions.go:98-100 | adding ciphertexts adds the noisy plaintexts modulo p |
| DHE.AndCarries | handin6/homomorphicFunctions.go:103-105 | multiplying ciphertexts multiplies the noisy plaintexts modulo p |
| DHE.XorDecrypts | handin6/homomorphicFunctions.go:97-100 | under the noise bound `HE_xor` decrypts to the XOR of the two decryptions |
| DHE.AndDecrypts | handin6/homomorphicFunctions.go:102-105 | under the noise bound `HE_and` decrypts to the AND of the two decryptions |
| DHE.SumParity | handin6/homomorphicFunctions.go:97-100 | the parity of a sum is the XOR of the parities |
| DHE.ProductParity | handin6/homomorphicFunctions.go:102-105 | the parity of a product is the AND of the parities |
| DHE.HE_xor | handin6/homomorphicFunctions.go:97-100 | the parity of `c1 + c2` is the XOR of the parities |
| DHE.HE_and | handin6/homomorphicFunctions.go:102-105 | the parity of `c1 * c2` is the AND of the parities |
| DHEParties.AliceInit | handin6/alice.go:11-14 | Alice's input is three bits, high first, which recombine into x for 0 <= x < 8 |
| DHEParties.AliceEncrypt | handin6/alice.go:17-26 | three ciphertexts, ciphertext i the encryption of bit i; a panic exactly when some input is not a bit |
| DHEParties.AliceEncryptDecrypts | handin6/alice.go:17-26 | each of Alice's ciphertexts decrypts to her bit while its noise stays below p |
| DHEParties.AliceReceiveSecretKey | handin6/alice.go:29-31 | Alice holds p as her key and keeps her bits |
| DHEParties.AliceDecrypt | handin6/alice.go:34-41 | Alice's output is 0 or 1, the decryption under her key |
| DHEParties.BobInit | handin6/bob.go:12-15 | Bob's input is three bits, high first, which recombine into y for 0 <= y < 8; his ciphertexts are untouched |
| DHEParties.BobEncrypt | handin6/bob.go:18-31 | a panic exactly when some input is not a bit; otherwise slots 0..2 hold his bits' encryptions, the six ones slots hold encryptions of 1, the rest is kept |
| DHEParties.EncryptEach | handin6/bob.go:21-29 | one ciphertext per bit, ciphertext i the encryption of bit i with coins i |
| DHEParties.BobEvaluate | handin6/bob.go:35-57 | the result is the compatibility formula on Bob's ones and bits and Alice's first three ciphertexts |
| DHEParties.Circuit | handin6/bob.go:35-57 | with odd ones, the formula is odd exactly when at each of the three positions the donor's bit parity is at most the recipient's |
| DHEParties.CircuitPrefix | handin6/bob.go:40-46 | the formula reads only Alice's first three ciphertexts |
| DHEParties.CircuitCarries | handin6/bob.go:35-57 | the formula on ciphertexts is congruent modulo p to the formula on the noisy plaintexts |
| DHEParties.Step | handin6/bob.go:40-46 | one `(1 ^ x) & y` term of ciphertexts carries the same term of the noisy plaintexts |
| DHEParties.CircuitNonneg | handin6/bob.go:35-57 | on non-negative values the formula is non-negative |
| DHEParties.Nonneg | handin6/bob.go:40-46 | one term on non-negative values is non-negative |
| DHEParties.TermParity | handin6/bob.go:40-49 | with odd ones, the parity of `1 ^ ((1 ^ x) & y)` is the Boolean term on the parities |
| DHEParties.CircuitParity | handin6/bob.go:33-57 | with odd ones and the parities of the two types' bits, the formula's parity is the handin4 compatibility bit |
| DHEParties.BobReady | handin6/bob.go:12-31 | after Init and Encrypt Bob holds encryptions of six ones and of the donor's three bits |
| DHEParties.AliceSends | handin6/alice.go:11-26 | Alice sends encryptions of the recipient's three bits |
| DHEParties.EachCarries | handin6/homomorphicFunctions.go:49-69 | each ciphertext of a bit carries a non-negative noisy plaintext with that bit's parity |
| DHEParties.EvaluationDecrypts | handin6/bob.go:35-57 | the evaluated ciphertext decrypts to the compatibility bit when the formula's noisy value stays below p |
| DHEParties.RunDecrypts | handin6/bob.go:35-57 | on the ciphertexts of a run of fresh parties, Bob's evaluation decrypts under p to the circuit's compatibility bit while the run's noise stays below p |
| DHEParties.Compatible | handin6/handin6_test.go:23-29 | a run of fresh parties over the corrected Encrypt answers, for types in range and under the noise bound, exactly as LookUpBloodType does, for all 64 pairs |
| Hex.HexValue | handin5/garbledFunctions.go:154-155 | a hex digit of either case has a value below 16, and nothing else has one |
| Hex.Digit | handin5/garbledFunctions.go:165 | the lower-case digit of a value below 16 reads back as that value |
| Hex.DecodeHex | handin5/garbledFunctions.go:154-155 | `hex.DecodeString` succeeds exactly on an even-length string of hex digits, giving half as many bytes |
| Hex.EncodeHex | handin5/garbledFunctions.go:165 | `hex.EncodeToString` writes two lower-case digits per byte |
| Hex.DecodeEncode | handin5/garbledFunctions.go:154-165 | decoding undoes encoding |
| Hex.EncodeDecode | handin5/garbledFunctions.go:154-165 | encoding undoes decoding on lower-case hex |
| Hex.DigitOfValue | handin5/garbledFunctions.go:165 | a lower-case digit is written back as itself |
| Hex.Nibbles | handin5/garbledFunctions.go:165 | the two nibbles of a byte built from them are those nibbles |
| Hex.LowerHexDecodes | handin5/garbledFunctions.go:154-155 | lower-case hex always decodes, to half as many bytes |
| Hex.XORStrings | handin5/garbledFunctions.go:153-166 | a panic exactly when an input does not decode or the lengths differ; otherwise lower-case hex of the same length which decodes to the bytewise XOR |
| Hex.XORStringsInverse | handin5/garbledFunctions.go:153-166 | XOR with the same string twice gives the other string back |
| Garbled.Hash | handin5/garbledFunctions.go:118-124 | the digest of the two keys, written as 64 lower-case hex characters |
| Garbled.Zeros128BitString | handin5/garbledFunctions.go:138-140 | 128 '0' characters |
| Garbled.ZeroPad | handin5/garbledFunctions.go:24-28 | the evidently intended redundancy: 128 zero bits, 32 hex characters |
| Garbled.Random128BitString | handin5/garbledFunctions.go:143-150 | 32 lower-case hex characters that decode to the 16 bytes drawn |
| Garbled.Apply | handin5/garbledFunctions.go:25-28 | the truth table of the gate: XOR is 1 exactly when the inputs differ, AND exactly when both are 1 |
| Garbled.Swap | handin5/garbledFunctions.go:132 | exchanges entries i and j, keeps every other entry, and is a permutation |
| Garbled.ShuffleDown | handin5/garbledFunctions.go:130-133 | the Fisher-Yates loop from index i down keeps the length and the multiset of entries |
| Garbled.Shuffle | handin5/garbledFunctions.go:129-135 | the result is a permutation of the input |
| Garbled.GarbleGate | handin5/garbledFunctions.go:13-70 | a garbled table has eight entries |
| Garbled.GarbleGateOk | handin5/garbledFunctions.go:31-34 | a gate garbles exactly when all four of its row encryptions succeed |
| Garbled.GarbleGateShuffles | handin5/garbledFunctions.go:16-37 | a table is the four empty strings `make` leaves and the four rows, in some order |
| Garbled.XORGate | handin5/garbledFunctions.go:13-42 | as written `XORGate` panics whatever its labels |
| Garbled.ANDGate | handin5/garbledFunctions.go:43-72 | as written `ANDGate` panics whatever its labels |
| Garbled.GateAsWrittenPanics | handin5/garbledFunctions.go:15-34 | with the 128-character redundancy a gate of either kind panics, whatever its labels |
| Garbled.RowDecrypts | handin5/garbledFunctions.go:19-34 | with 32-character labels and the 32-character redundancy, a row XORed with the hash of its input labels gives the output label for op(a, b) followed by the redundancy |
| Garbled.GateCorrect | handin5/garbledFunctions.go:13-70 | with labelled wires and the corrected redundancy a table exists, and each of the four input pairs finds its row in it and decrypts to the right output label |
| Garbled.GateOk | handin5/garbledFunctions.go:13-70 | with labelled wires and the corrected redundancy a gate garbles |
| Garbled.RowsInTable | handin5/garbledFunctions.go:31-37 | every row of a garbled gate is in its table |
| Garbled.FourInPermutation | handin5/garbledFunctions.go:31-37 | the four appended rows survive any permutation of the table |
| Garbled.InPermutation | handin5/garbledFunctions.go:129-135 | an entry of a slice is in every permutation of it |
| Garbled.UnlabelledOutputPanics | handin5/garbledFunctions.go:25-34 | a gate whose output wire has empty labels panics even with the corrected redundancy |
| Garbled.Wiring | handin5/garbledFunctions.go:85-104 | eleven gates over the 23 wires, each reading only wires below its output |
| Garbled.ExorAsWrittenStarves | handin5/garbledFunctions.go:88-112 | as listed, `e_x`, `e_y` and `e_xor` leave a gate input unsupplied, and `e_xor` names wire 4, an AND gate's output |
| Garbled.ExorWiresSupply | handin5/garbledFunctions.go:85-112 | with the corrected constant wires every gate input is available when the gate is reached |
| Garbled.ExorWiresAreInputs | handin5/garbledFunctions.go:85-104 | no corrected constant wire is written by a gate |
| Garbled.ComputedBy | handin5/garbledFunctions.go:85-104 | the output of a gate is available to every later gate |
| Garbled.EvaluateKeeps | handin5/garbledFunctions.go:85-104 | a wire no gate writes keeps its value |
| Garbled.RunKeeps | handin5/garbledFunctions.go:85-104 | the same from gate k on |
| Garbled.WiringOnBits | handin5/garbledFunctions.go:85-107 | with 1 on the six constant wires, wire 22 is the AND over the three positions of (x_i OR NOT y_i) |
| Garbled.PlainInputsOnWires | handin5/garbledFunctions.go:110-112 | the plain inputs hold 1 on the corrected constant wires and the two parties' bits on `e_x` and `e_y` |
| Garbled.WiringComputesCompatibility | handin5/garbledFunctions.go:72-107 | with the corrected constant wires wire 22 carries the compatibility bit of the two blood types, which is the table's answer |
| Garbled.Collect | handin5/garbledFunctions.go:85-104 | all tables in order when every gate succeeds, otherwise the panic of a failing gate |
| Garbled.GarbleAllFails | handin5/garbledFunctions.go:85-104 | one panicking gate makes the whole construction panic |
| Garbled.GarbleAllSucceeds | handin5/garbledFunctions.go:85-104 | when every gate garbles, `F` is their tables in order |
| Garbled.Select | handin5/garbledFunctions.go:107-112 | the wires at the given indices, in order |
| Garbled.GarbleCircuit | handin5/garbledFunctions.go:74-115 | on success `d` is wire 22 and `e_x`, `e_y`, `e_xor` are the wires at their indices |
| Garbled.LabelWire | handin5/garbledFunctions.go:79 | a wire labelled from two draws has two 32-character hex labels |
| Garbled.LabelsAsWritten | handin5/garbledFunctions.go:77-80 | as written wires 0..21 are labelled and wire 22 keeps two empty strings |
| Garbled.Labels | handin5/garbledFunctions.go:76-80 | all 23 wires labelled, as the comment above the loop intends |
| Garbled.MakeGarbledCircuitAsWritten | handin5/garbledFunctions.go:74-115 | as written the construction always panics |
| Garbled.UnlabelledLastWirePanics | handin5/garbledFunctions.go:77-104 | even with the corrected redundancy the construction panics at the last gate, whose output wire 22 was never labelled |
| Garbled.MakeGarbledCircuit | handin5/garbledFunctions.go:74-115 | the corrected construction succeeds with eleven tables, `d` wire 22 and `e_x`, `e_y`, `e_xor` the wires the circuit reads, and in every table each input pair decrypts to its gate's output label for that pair |
| Garbled.CircuitCorrect | handin5/garbledFunctions.go:74-115 | over 23 labelled wires with the corrected redundancy the circuit garbles and each of its eleven tables decrypts as its gate computes |
| Garbled.GarbleAllOk | handin5/garbledFunctions.go:85-104 | over labelled wires with the corrected redundancy any list of gates garbles, one table per gate |
| Garbled.GarbleAllCorrect | handin5/garbledFunctions.go:85-104 | the same, and in every table every input pair decrypts |
| GarbledBob.NewBob | handin5/bob.go:5-13 | a Bob with empty key and wire lists |
| GarbledBob.Init | handin5/bob.go:21-23 | sets y and nothing else |
| GarbledBob.ReceiveKeys | handin5/bob.go:25-27 | stores the keys and nothing else |
| GarbledBob.Encode | handin5/garbledFunctions.go:182-195 | three labels, label i one of the two labels of wire i of `e_y` |
| GarbledBob.LabelBit | handin5/garbledFunctions.go:191 | a string has a bit on a wire exactly when it is one of the wire's labels, and that bit's label is the string |
| GarbledBob.ReadBack | handin5/garbledFunctions.go:185-191 | three labels read back to a value below 8 exactly when each is a label of its wire |
| GarbledBob.EncodeReadsBack | handin5/garbledFunctions.go:182-195 | with distinct labels on the three wires, the encoding of a blood type reads back as that type |
| GarbledBob.EncodeInjective | handin5/garbledFunctions.go:182-195 | hence two blood types with the same encoding are the same |
| GarbledBob.Keep | handin5/bob.go:70-72 | as written Bob stores `e_y` and `e_x` and nothing else |
| GarbledBob.AfterGarbling | handin5/bob.go:31-75 | Bob's construction succeeds exactly when the circuit's does; then he holds its `e_y` and his old `e_xor` |
| GarbledBob.MakeGarbledCircuitAsWritten | handin5/bob.go:31-75 | as written Bob's construction always panics |
| GarbledBob.BobEncode | handin5/bob.go:78-92 | three labels, and the constant wires Bob holds |
| GarbledBob.ExorNeverStored | handin5/bob.go:71-72 | a Bob set up by Init and MakeGarbledCircuit as written sends no constant wires, whatever circuit he built |
| GarbledBob.KeepAll | handin5/bob.go:70-74 | the corrected store: `e_y`, `e_x` and `e_xor`, nothing else |
| GarbledBob.AfterGarblingCorrected | handin5/bob.go:31-75 | the corrected construction succeeds exactly when the circuit's does; then Bob holds its `e_y` and `e_xor` |
| GarbledBob.DistinctLabels | handin5/garbledFunctions.go:143-150 | draws that differ give every wire two different labels |
| GarbledBob.BobEncodeCorrected | handin5/bob.go:31-92 | corrected, Bob's message carries the six constant wires of the circuit, and with distinct draws his three labels read back as his blood type |
| GarbledBob.EncodeOver | handin5/bob.go:70-92 | over any circuit whose `e_y` wires carry distinct labels, Bob's stored wires and message read back as his blood type |
| Bytes.ByteOfValue | project/OTExtension/OTReceiver.go:146 | a byte is determined by its value |
| Bytes.ToUint8 | project/OTExtension/OTReceiver.go:146 | `uint8(x)` is x modulo 256, and x itself for 0 <= x < 256 |
| Bytes.ByteOf | project/OTExtension/OTReceiver.go:146 | the byte holding a value below 256 |
| Bytes.XorBytes | project/OTExtension/OTSender.go:229-241 | `xor.XORBytes` fails exactly when the lengths differ; otherwise entry i is a[i] xor b[i] |
| Bytes.XorBytesCancel | project/OTExtension/OTReceiver.go:177-183 | XOR with the same pad twice gives the input back |
| Bytes.XorBitStrings | project/OTExtension/OTSender.go:229 | the XOR of two bit strings is a bit string |
| Bytes.Zeros | project/utils/utils.go:505-514 | n bytes, all zero, as `make` allocates them |
| BigEndian.FromBytesLeadingZero | project/OTBasic/OTSender.go:37-38 | a leading zero byte does not change the value read |
| BigEndian.FromBytesPositive | project/OTBasic/OTSender.go:37-38 | bytes with a non-zero first byte read as a positive value |
| BigEndian.FromBytesInverseNormal | project/OTBasic/OTReceiver.go:67 | bytes without a leading zero are written back unchanged |

## Left out

- `draw.py`, `project/draw.py`, the benchmark files and `main.go`: CSV handling, plotting, timing and printing only.
- Printing and debug helpers, including the `fmt.Println` calls inside the protocol drivers: output only.
- The multithreaded branch of `EklundhTranspose` (project/utils/utils.go:283-294): it runs the same inner transpose in goroutines. The sequential branch is modelled.
- Eklundh.EklundhTranspose: for rows <= cols it requires the row count to be a power of two that divides the column count. The two out-of-range panics outside that case are not modelled.
  - When rows does not divide cols, the padded block starts with nil rows, and the in-place swap indexes into them (project/utils/utils.go:225-238, 262).
  - When a square matrix's side is not a power of two, such as 3 x 3, the swap's partner index passes the last row (project/utils/utils.go:262).
- Matrices.RecursiveTranspose: requires a square matrix whose side is a power of two. `eklundhTransposeMatrixRecursiveInner` (project/utils/utils.go:332-384) has no caller, and on other shapes `makeSubMatrix` indexes past the matrix; those panics are not modelled.
- OTExtSender.GenerateMatrixQEklundh: for k <= m it needs the same power-of-two k dividing m as Eklundh.EklundhTranspose. Its panic for every k > m is modelled.
- SHA-256, AES-GCM and big-prime generation (`rand.Prime`, `ProbablyPrime`): oracles and parameters.
  - The seal oracle inside `HashPrg.Prg` is taken to succeed with a non-empty output; see the `HashPrg.Prg:` line below for the code as written.
- Go's slice aliasing and pointer receivers: every party is an immutable value, and each method returns the updated party.
- The OTBasic sender's `Init` leaves its keys nil; the model starts them as the empty sequence.
- `project/OTBasic/OTBasicProtocol.go` repeats `RandomBytes`, `AllOnes`, `AllTwos` and `RandomSelectionBits` from `project/OTExtension/OTExtensionProtocol.go`; each is modelled once, in OTExtProtocol.
- handin1, handin3, the root `handin2.go`, `project/OTBasis`, `project/OTPlain`, `project/OTExtension/utils.go`, `project/OTBasic/utils.go`, and `handin4/elGamal.go` and `handin5/elGamal.go` are outside this model. They are drafts or superseded copies; handin3 does not compile.
- handin4's drivers (`handin4.go`, `alice.go`, `bob.go`) are outside this model. They call methods that do not exist; the circuit they evaluate is modelled in BloodTypes.
- handin5 is partly outside this model.
  - `CalculateGate` reads only the first table entry.
  - `GarbledEvaluation` and `Decode` are empty stubs.
  - Bob's OT-based `Encrypt` with his `ElGamal` field, `alice.go` and the `handin5.go` driver are left out.
  - The model covers garbling, shuffling, labels and Bob's encoding. A reference evaluator (`Garbled.Evaluate`) states what the tables compute.
- `handin6/handin6.go`: a driver that does not compile (a stray `DHE` identifier). The protocol run it intends is `DHEParties.Compatible`.
- DHEParties.AliceDecrypt: `Alice.Decrypt` calls `DHE.Decrypt` with two arguments (handin6/alice.go:37), but that method takes one (handin6/homomorphicFunctions.go:71). The model decrypts with Alice's stored key, as the call evidently means.
- DHE.Encrypt: models the corrected subset 0..n-1 of the key indices. As written, `randomSubset` ranges over 1..n, so an encryption whose coin n-1 is set reads y[n] and panics. That version is `DHE.EncryptAsWritten`, which requires its subset to stay inside the key.
- DHEParties.Compatible: is proved over the corrected `DHE.Encrypt`. Over the code as written, a run panics whenever some encryption's coin n-1 is set. It also holds only while the evaluated formula's noise stays below p; the code does not check this bound, and large noise makes the decrypted bit wrong.
- HashPrg.Prg: models the generator the protocols need, not the code as written. As written (project/utils/utils.go:56-66) every call with bitLength > 0 panics, modelled as `HashPrg.PrgAsWritten`. When the seed's `Bytes()` is not 16, 24 or 32 bytes long, `aes.NewCipher`'s error is discarded and `cipher.NewGCM` is handed a nil block. Otherwise `Seal` is handed a nil nonce, and Go's GCM panics on any nonce that is not 12 bytes. So every GenerateMatrixT, GenerateAndSendMatrixU and GenerateMatrixQ with m > 0, and every OT-extension run, panics, and `OTExtProtocol.ExtensionCorrect` holds for the intended generator only. The declared third parameter `iv` (utils.go:49) is never read, and every caller (project/OTExtension/OTSender.go:116, 153, 192 and OTReceiver.go:104, 134) passes two arguments, so `project/OTExtension` does not compile as given; the model takes the two-argument form its callers use.
- OTExtProtocol.ExtensionCorrect: requires every message to be ByteLength(l) bytes, the length of the pad H(q_j, l). The driver draws l-byte messages (project/benchmark/BenchmarkOT.go:36-41), so for every l >= 2 the XOR with the pad fails and the run panics. The driver's own l = 1 is covered.
- Beaver: models one bit lane. The Go code keeps shares in `int` and combines them with `^` and `&`, which act on each bit lane separately; the protocol's values are single bits, so only the lowest lane is modelled.
- Garbled.GarbleGate: its own contract states only that a table has eight entries. The gate's promise, that each input pair decrypts to its output label, is stated by `Garbled.GarbleGateOk`, `Garbled.GarbleGateShuffles` and `Garbled.GateCorrect`.
- OTExtSender.DecryptSeeds: the Go slice also carries nil entries past the k decrypted seeds. The model returns the k seeds only.

## Findings

| source | as written | input that shows it | evidently intended | confidence | as-written member | corrected member |
|---|---|---|---|---|---|---|
| project/elgamal/elGamal.go:38-43 | x is drawn from [2, p] (`rand.Int(p - 1) + 2`), and g = x^2 mod p | the last draw, p - 2, gives x = p and so g = 0; the draw p - 3 gives x = p - 1 and so g = 1 | x in [2, p - 2], so that g is a non-zero residue other than 1 | not executed | ElGamal.InitValidExceptLastDraw | ElGamal.InitCorrectedValid |
| project/OTBasic/OTReceiver.go:72-75 | the decrypted value's big-endian bytes are padded with zeros at the end | l = 2 and message [0, 1] come back as [1, 0] | pad at the front, so any l-byte message survives | not executed | OTBasic.LeadingZeroMoved | OTBasic.TransferCorrectedCorrect |
| handin6/homomorphicFunctions.go:87 | the random subset ranges over 1..n and indexes the n-entry public key with it | n = 1 with a coin of 1 gives the subset [1], past the end of the key | the subset ranges over 0..n-1 | not executed | DHE.AsWrittenCounterexample | DHE.DecryptEncrypt |
| handin5/garbledFunctions.go:15-28 | a row XORs the 64-character SHA-256 hex digest with a 32-character label plus 128 '0' characters | any labels: the lengths 64 and 160 differ, so every gate panics | a 32-character redundancy, so both strings are 64 characters | not executed | Garbled.GateAsWrittenPanics | Garbled.GateCorrect |
| handin5/garbledFunctions.go:78 | only wires 0..21 get random labels | the last AND gate's output wire 22 has two empty labels, and the XOR panics | label all 23 wires | not executed | Garbled.UnlabelledLastWirePanics | Garbled.MakeGarbledCircuit |
| handin5/garbledFunctions.go:112 | the constant wires are wires 0, 4, 7, 11, 14 and 18 | wire 5, the constant input of the third gate, is never supplied, while wire 4 is an AND gate's output | wires 0, 5, 7, 12, 14 and 19 | not executed | Garbled.ExorAsWrittenStarves | Garbled.ExorWiresSupply |
| handin5/bob.go:71-72 | `MakeGarbledCircuit` stores `e_y` and `e_x` but not `e_xor`, which `Encode` sends | any circuit: Bob's encoded input carries no constant wires; the handin5.go driver does forward the returned `e_xor` to Alice separately (handin5/handin5.go:17, 29), so only `Y.e_xor` and `bob.e_xor` stay empty | store `e_xor` as well | not executed | GarbledBob.ExorNeverStored | GarbledBob.BobEncodeCorrected |
| project/OTExtension/OTSender.go:175 | the Eklundh variant transposes the k x m matrix of rows with `EklundhTranspose`, which panics when it has more rows than columns | k = 128 and m = 4, the benchmark's first size and the Eklundh test's m = 2 and m = 4: the 128 x 4 matrix makes `divideMatrix` panic | a transposed Q for every m, as the test's plaintext check expects | not executed | OTExtSender.EklundhFailsAtBenchmarkSize | OTExtSender.TransposeVariantAgrees |
| project/utils/utils.go:66 | `aesgcm.Seal(nil, nil, seedBytes, nil)` passes a nil nonce, and a seed whose bytes are not an AES key size leaves a nil block for `cipher.NewGCM` (utils.go:57) | any seed and any bitLength > 0, e.g. the first G(seed_i, m) of an OT-extension run: Go's GCM panics on a nonce that is not 12 bytes | a fixed 12-byte nonce (or a counter) and a 16-byte key derived from the seed, so that each seed gives a stream of sealed blocks | not executed | HashPrg.PrgAsWritten | HashPrg.Prg |
