# Verified models of Nut/OS: cryptography and C runtime

Nut/OS is a small operating system for embedded boards. This project models, in Dafny, the parts of it
whose correctness is hardest to see from the code, and proves what they are for:

* **Multi-precision arithmetic** (`nut/crypto/bigint.c`): long division with its quotient estimate and
  add-back, schoolbook, column-wise and Karatsuba products, Montgomery and Barrett reduction,
  sliding-window exponentiation, recombination by the Chinese Remainder Theorem, and the pool of
  reference-counted objects that all of them work on. Objects live on the heap and are recycled, and every
  contract says what happens to references, to the free list and to the count of active objects.
* **RSA** on top of it (`nut/crypto/rsa.c`), from key set-up through padding, the public and private
  operations and unpadding to the release of the last object, with Fermat's little theorem for its exponents.
* **AES** in CBC mode (`nut/crypto/aes.c`), **streaming hashes** and **HMAC**.
* **vis/unvis**, the **environment** in non-volatile memory, **select**, the **DM9000** transmit queue, and
  **calendar and daylight saving time**.

Components are 32 bits wide (RADIX = 2^32, the default build). `bi_residue` is modelled for each of its three
configurations: `bi_divide` in reduction mode, `bi_mont`, or `bi_barrett`. Random padding bytes are a
parameter, and so are the compression functions of the hashes. Storage and allocation succeed.

## What was found

Where the code does not do what its comments promise, the model keeps the code. The exact condition is proved,
except for Barrett reduction, where two sufficient conditions are proved, with inputs that fail without them.

* `bi_divide` and `bi_set_mod` form V1 + 1 in a component: a divisor whose top component is 0xFFFFFFFF traps
  (`Divide.NormaliseFactor`). With is_mod 0 nothing turns away a dividend with fewer components than the
  divisor, although its quotient is zero and the first window would start before it (`Divide.ShortDividend`).
* Barrett reduction subtracts the modulus at most once, although its estimate can be three short. For a modulus
  above one that leads neither with RADIX - 1 nor with the components 1, 0, and an argument below its square,
  the result is the remainder (`BarrettTheory.BarrettExact`), and so are modular powers of reduced bases. This is
  sufficient, and neither part can be dropped: `BarrettTheory.NotFullyReduced` is an input from the square on, and
  `BarrettTheory.LeadingOneZero` one below the square of a modulus that leads with 1, 0. Without them the result
  is congruent and below 3m. When radix^2k leaves a remainder that stays two units of the top position below the
  modulus, no condition on the argument is needed (`BarrettTheory.BarrettFull`), which is sufficient too.
* With Barrett reduction and the Chinese Remainder Theorem together, as every board file has them, neither the
  base of the powers nor the product with qInv need be below the square of the prime. For primes as in `BarrettFull`
  every residue is exact all the same, and `bi_crt`, RSA and whole sessions are what they are under the other
  reductions; a p, a q and a number for which `bi_crt` would return too much without that are in
  `Crt.FullPrimesNeeded`.
* `bi_mod_power` assumes an odd exponent. Even exponents are raised to correctly up to 165 bits; from there the
  window is three bits wide and a last window that ends on a zero bit 0 loses one: 2^165 + 2 is raised to as
  2^165 + 1 (`Exponent.EvenExponentFails`). `Exponent.PowerExponent` is the exponent really used, and
  `Exponent.PowerExponentIs` says exactly when it is the given one.
* The subtraction in `bi_crt` works in the components of m1 + p: a longer m2 is cut, also for its later use as a
  summand, and a larger one borrows. The result has both remainders if and only if m2 <= m1 + p, or m2 fits the
  width and p divides it (`CrtTheory.CombinedExact`), which an odd p above one never does
  (`CrtTheory.CombinedOdd`). Every number below p q comes back if and only if q <= p + 1
  (`CrtTheory.LargerPrimeFirst`); with p = 5 and q = 2^32 + 15 the number 2^32 does not (`CrtTheory.CutPower`).
* In the Montgomery configuration `bi_set_mod` reduces the powers of R by the current modulus, whatever slot it
  fills (`SetMod.BiSetMod`). For a prime p of that modulus n they are those of p exactly when R mod n is below p
  (`SetMod.PowersOfPrime`); for n = 35, p = 5 they are not (`SetMod.PowersOfPrimeDiffer`). Nothing uses them.
* `RSA_decrypt` rejects every padded empty message (`Pkcs1.EmptyNotFramed`), and in verification accepts exactly
  the separators other than 0xff (`Pkcs1.SeparatorAccepted`).
* `SHA512_Final` keeps the length modulo 2^64 bits: its padding is the standard's exactly below that
  (`Sha512.SourcePaddedIs`), and no longer for 2^61 bytes (`Sha512.LongMessage`).
* `strnvis` copies visible characters before it looks at VIS_HTTPSTYLE, so that it differs from `strvis` on
  exactly the visible characters that a URI must encode (`VisBuffers.FormsDiffer`).
* VIS_SAFE takes precedence over VIS_GLOB, which then encodes nothing (`VisShape.RawExactly`), and VIS_HTTPSTYLE with
  VIS_GLOB writes an asterisk with a backslash, exactly the case in which an encoding is no URI text
  (`VisShape.UriEncoding`).
* `strunvisx` called with a flag word that contains VIS_OCTAL decodes everything to the empty string, because
  VIS_OCTAL and UNVIS_END have the same value (`Unvis.OctalFlagDecodesNothing`). `strnvis` with a
  one-byte buffer returns 0 (`VisBuffers.StrnVis`).
* `unsetenv` of the only variable leaves its image in storage, and the next lookup brings it back
  (`Environ.UnsetThenGet`).
* The second scan in `do_select`, which a comment in the source calls into question, is needed unless every
  driver registers before it looks at its flags (`SelectProtocol.SecondScanNeeded`,
  `SelectProtocol.OneScanIsEnough`).

## Layout

| files | subject |
|---|---|
| `Bytes`, `Radix`, `Comps`, `CompLoops` | bytes, components, the number they stand for, and the carry loops |
| `Bigint` | bigint objects, the session pool, in-place addition and subtraction |
| `QuotientDigit`, `Divide` | long division |
| `Multiply`, `Square`, `Products` | products |
| `Modular`, `Reduction`, `BarrettTheory`, `BarrettReduction`, `Residue` | congruences and the three reductions |
| `Exponent`, `ModPower`, `ModularPower`, `CrtTheory`, `Crt`, `SetMod` | powers, CRT, modulus constants |
| `Fermat`, `Octets`, `Pkcs1`, `RsaKey`, `Rsa`, `RsaBlocks`, `RsaSession` | RSA |
| `AesTables`, `AesColumn`, `AesInverse`, `Aes`, `AesCbc`, `AesContext`, `AesStandard` | AES |
| `Hashing`, `Sha256`, `Md5`, `Sha1`, `Sha512`, `Hmac` | hashes |
| `Vis`, `Unvis`, `VisBuffers`, `VisShape`, `UnvisShape` | visual encoding |
| `EnvImage`, `Environ` | environment variables |
| `WaitList`, `SelectProtocol`, `SelectReports`, `Transmit` | protocols |
| `Calendar`, `Dst` | time |

`dafny verify dfyconfig.toml` checks everything.

## Model

| member | source | states |
|---|---|---|
| Comps.ValConcat | nut/crypto/bigint.c:72-75 | The number of a component sequence splits at any component, which is how all indexing macros and shifts are read. |
| Comps.TrimmedInjective | nut/crypto/bigint.c:1177-1187 | Trimmed numbers with the same value have the same components. |
| CompLoops.AddComps | nut/crypto/bigint.c:265-293 | The carry loop adds: sum plus carry out equals the sum of both numbers. |
| CompLoops.SubComps | nut/crypto/bigint.c:304-334 | The borrow loop subtracts, with the borrow out standing for one power of the radix. |
| CompLoops.MulByComp | nut/crypto/bigint.c:339-362 | One component times a number, in a component more. |
| CompLoops.DivByComp | nut/crypto/bigint.c:498-513 | Exact quotient by a component, most significant component first. |
| CompLoops.Compare | nut/crypto/bigint.c:1014-1051 | The sign of the result is the order of the two numbers, for trimmed operands of any sizes. |
| Bigints.MoreComps | nut/crypto/bigint.c:1056-1070 | Growing appends zeros, whatever stale memory lay there; shrinking forgets. |
| Bigints.Trim | nut/crypto/bigint.c:1177-1187 | Removes leading zero components only. |
| Bigints.RightShift | nut/crypto/bigint.c:550-572 | Division by a power of the radix, also when nothing is left. |
| Bigints.LeftShift | nut/crypto/bigint.c:577-601 | Multiplication by a power of the radix. |
| Bigints.BiCtx.constructor | nut/crypto/bigint.c:99-110 | A new session has the permanent radix as its only active object. |
| Bigints.BiCtx.Alloc | nut/crypto/bigint.c:1076-1107 | Recycles the head of the free list or creates an object; pool invariant and counts. |
| Bigints.BiCtx.Copy | nut/crypto/bigint.c:161-167 | One more reference, except for permanent objects. |
| Bigints.BiCtx.Free | nut/crypto/bigint.c:208-230 | The last reference moves the object to the free list and lowers the active count; nothing else does. |
| Bigints.BiCtx.Permanent | nut/crypto/bigint.c:175-184 | The object is kept until made temporary again. |
| Bigints.BiCtx.Depermanent | nut/crypto/bigint.c:190-199 | The inverse. |
| Bigints.BiCtx.Clone | nut/crypto/bigint.c:250-256 | A new object with the same components; the original keeps its reference. |
| Bigints.BiCtx.Add | nut/crypto/bigint.c:265-293 | The sum in place of the first operand; one reference of the second is consumed. |
| Bigints.BiCtx.Subtract | nut/crypto/bigint.c:304-334 | The difference modulo the size of the first operand, and the sign; a longer second operand is cut to that size, for its other references too; one reference consumed. |
| Bigints.BiCtx.IntMultiply | nut/crypto/bigint.c:339-362 | A new object with the product; one reference consumed. |
| Bigints.BiCtx.IntDivide | nut/crypto/bigint.c:498-513 | The quotient in place. |
| Bigints.BiCtx.ClearCache | nut/crypto/bigint.c:137-153 | Empties the free list and nothing else. |
| Bigints.BiCtx.Terminate | nut/crypto/bigint.c:119-132 | Reports a leak if and only if an object other than the radix is in use. |
| Bigints.LiveNotFree | nut/crypto/bigint.c:208-230 | No object is in use and on the free list at once. |
| QuotientDigit.EstimateNotBelow | nut/crypto/bigint.c:427-434 | The estimate from the two top components is never below the true digit. |
| QuotientDigit.EqualTops | nut/crypto/bigint.c:428-431 | When the tops are equal, RADIX - 1 is the digit or one above it, without the second test. |
| QuotientDigit.SecondDigitTest | nut/crypto/bigint.c:436-447 | One decrement by the V2 test leaves at most one excess, with no wrap-around in the test itself. |
| QuotientDigit.EstimateDigit | nut/crypto/bigint.c:427-448 | The digit produced is the true digit or one above it, in every case including one-component divisors. |
| Divide.MultiplySubtract | nut/crypto/bigint.c:450-456 | Subtracting the multiple of the divisor from the window, with the sign. |
| Divide.AddBack | nut/crypto/bigint.c:460-469 | One add-back repairs an excess of one; the lopped carry is exactly the borrowed power, and the divisor gets its size back. |
| Divide.LongDivide | nut/crypto/bigint.c:422-478 | The loop leaves quotient and remainder of the normalised operands. |
| Divide.NormaliseFactor | nut/crypto/bigint.c:397 | The factor is the largest d with d (V1 + 1) <= RADIX; it exists exactly when the top component is neither 0 nor RADIX - 1. |
| Divide.ScaledDivisor | nut/crypto/bigint.c:402-415 | Scaling makes the top component at least half the radix and keeps the size. |
| Divide.ScalingUndone | nut/crypto/bigint.c:483-487 | The factor cancels in the quotient and is divided out of the remainder exactly. |
| Divide.BiDivide | nut/crypto/bigint.c:375-493 | floor(u / v) or u mod v for trimmed operands of any size; operands consumed, the stored normalised modulus restored, pool balanced. |
| Divide.ShortDividend | nut/crypto/bigint.c:377-398 | The first window lies inside the dividend if and only if it has as many components as the divisor; otherwise the quotient is zero. |
| Multiply.MultiplyRow | nut/crypto/bigint.c:800-848 | One row, started and cut as innerPartial and outerPartial say. |
| Multiply.SkippedBound | nut/crypto/bigint.c:800-848 | The columns dropped by outerPartial are worth less than outerPartial powers of the radix. |
| Multiply.MultiplyComps | nut/crypto/bigint.c:800-848 | The full product, the product less the dropped columns, or the product modulo a power of the radix. |
| Square.DoubleColumn | nut/crypto/bigint.c:935-983 | The single flag catches every carry out of the double-width accumulator. |
| Square.SquareComps | nut/crypto/bigint.c:935-983 | Column-wise squaring gives x * x for every size. |
| Products.BiMultiply | nut/crypto/bigint.c:914-929 | A new object with the product; one reference of each operand consumed. |
| Products.KaratsubaIdentity | nut/crypto/bigint.c:856-904 | Three squares of halves give the square. |
| Products.KaratsubaSquare | nut/crypto/bigint.c:856-904 | Recursive squaring of any size from the threshold on, with a size that decreases. |
| Products.BiSquare | nut/crypto/bigint.c:991-1005 | x * x through either path. |
| Modular.ModularInverse | nut/crypto/bigint.c:522-542 | Minus the inverse of an odd component modulo the radix. |
| Reductions.BiMod | nut/include/crypto/bigint.h:68 | Classical reduction by the current modulus; permanent objects keep their components. |
| Reductions.MontgomeryStep | nut/crypto/bigint.c:1196-1226 | Each step clears one component. |
| Reductions.MontgomeryPass | nut/crypto/bigint.c:1196-1226 | The component read is valid or zero even beyond the size of the number. |
| Reductions.BiMont | nut/crypto/bigint.c:1196-1226 | For odd m and x below m R: the number below m whose product with R is congruent to x. |
| BarrettTheory.BarrettBounds | nut/crypto/bigint.c:1251-1285 | With both truncated products the estimate is the quotient or at most three below it. |
| BarrettTheory.ReducedResult | nut/crypto/bigint.c:1251-1285 | Any result is congruent and below 3m; it is the remainder if and only if the estimate was at most one short. |
| BarrettTheory.BarrettExact | nut/crypto/bigint.c:1251-1285 | For every modulus above one that leads neither with RADIX - 1 nor with 1, 0, and every x below its square, the result is the remainder. |
| BarrettTheory.BarrettFull | nut/crypto/bigint.c:1251-1285 | For every modulus whose remainder of radix^2k stays two units of the top position below it, and every x of up to 2k components, the result is the remainder. |
| BarrettTheory.NotFullyReduced | nut/crypto/bigint.c:1251-1285 | The components of a modulus, its mu and an x of twice its length, from its square on, for which the result is not below the modulus. |
| BarrettTheory.LeadingOneZero | nut/crypto/bigint.c:1251-1285 | The components of a modulus that leads with 1, 0 and of an x below its square that comes back as m + 1. |
| BarrettReduction.TruncatedRest | nut/crypto/bigint.c:1233-1243 | Subtracting modulo a power of the radix loses nothing. |
| BarrettReduction.BiBarrett | nut/crypto/bigint.c:1251-1285 | The reduction as an operation on objects: congruent and below 3m; the remainder itself below the square of a modulus as in BarrettExact, for every number with one as in BarrettFull, and for long numbers, which go to division. |
| Residue.BiResidue | nut/include/crypto/bigint.h:75-83 | One contract for the three configured reductions, with the cases in which each gives a residue below the modulus. |
| Exponent.ExpBitIsOne | nut/crypto/bigint.c:1138-1153 | Reads the bit of the number, across components. |
| Exponent.FindMaxExpIndex | nut/crypto/bigint.c:1113-1132 | The position of the highest one bit, -1 for zero. |
| Exponent.ChunkIndex | nut/crypto/bigint.c:1366-1393 | Every table index lies inside the precomputed odd powers and selects the window's odd part. |
| Exponent.NoBadTail | nut/crypto/bigint.c:1371-1372 | Odd exponents, and windows of up to two bits, never end on a zero bit. |
| Exponent.PowerExponentIs | nut/crypto/bigint.c:1364-1399 | The exponent raised to is the given one if and only if no window ends on a zero bit 0; otherwise it is one less. |
| Exponent.PowerExponentExact | nut/crypto/bigint.c:1329-1416 | The exponent raised to is the given one for every odd exponent and every exponent of at most 165 bits. |
| Exponent.EvenExponentFails | nut/crypto/bigint.c:1371-1372 | The exponent 2^165 + 2 ends in a bad tail and is raised to as 2^165 + 1. |
| ModPower.PrecomputeSlideWindow | nut/crypto/bigint.c:1292-1315 | All odd powers up to 2^window - 1, as distinct permanent objects. |
| ModPower.WindowStep | nut/crypto/bigint.c:1366-1393 | A window leads from the bits read so far to the bits below it. |
| ModPower.PowerLoop | nut/crypto/bigint.c:1364-1399 | The scan ends with the power of the whole exponent, for any window size. |
| ModularPower.BiModPower | nut/crypto/bigint.c:1329-1416 | bi^e modulo the current modulus under every configuration: the remainder itself for classical and Montgomery, for Barrett with a modulus as in BarrettFull, or with a reduced base and one as in BarrettExact; otherwise congruent and below 3m; operands consumed, table released. |
| SetMod.BiSetMod | nut/crypto/bigint.c:737-768 | Everything that reductions and powers rely on is established for the slot; the stored powers of R are those modulo the current modulus; other slots stay as they were; the new objects are distinct and counted. |
| SetMod.PowersOfPrime | nut/crypto/bigint.c:750-754 | Reduced by n instead of its divisor p, a power of R is right if and only if the remainder is below p. |
| SetMod.PowersOfPrimeDiffer | nut/crypto/bigint.c:750-754 | It is not for n = 35 and p = 5. |
| CrtTheory.CombinedExact | nut/crypto/bigint.c:1486-1493 | The recombination has both remainders if and only if m2 <= m1 + p, or m2 fits the components of m1 + p and their power of the radix is a multiple of p. |
| CrtTheory.CombinedOdd | nut/crypto/bigint.c:1486-1493 | For an odd p above one: if and only if m2 <= m1 + p. |
| CrtTheory.WeightNoMultiple | nut/crypto/bigint.c:1486 | A power of the radix is never a multiple of an odd number above one. |
| CrtTheory.CombinedBound | nut/crypto/bigint.c:1486-1493 | The result is below p q, right or not. |
| CrtTheory.LargerPrimeFirst | nut/crypto/bigint.c:1486-1493 | Every number below p q is recombined from its remainders if and only if q <= p + 1. |
| CrtTheory.CutPower | nut/crypto/bigint.c:1486 | With p = 5 and q = 2^32 + 15 the power 2^32 is cut to 0 and the result is wrong. |
| CrtTheory.CrtUnique | nut/crypto/bigint.c:1469-1494 | At most one number below p q has given remainders. |
| Crt.CrtPowerRight | nut/crypto/bigint.c:1469-1494 | The same condition for the two powers that the private operation takes. |
| Crt.FullPrimesNeeded | nut/crypto/bigint.c:1486-1493 | A p, a q and a number below p q whose two powers are exact, but for which Barrett reduction leaves h one p too large and the recombination is not below p q. |
| Crt.BiCrt | nut/crypto/bigint.c:1469-1494 | For any two primes under every reduction, for Barrett as in BarrettFull: below p q, the recombination of bi^dP mod p and bi^dQ mod q, and right exactly under that condition; key objects untouched. |
| Octets.ImportExported | nut/crypto/bigint.c:698-722 | Reading back an export gives the number modulo 256^k. |
| Octets.ExportImported | nut/crypto/bigint.c:611-630 | Exporting an import gives back every byte string, leading zeros included. |
| Octets.BiImport | nut/crypto/bigint.c:611-630 | The big-endian number, trimmed. |
| Octets.BiExport | nut/crypto/bigint.c:698-722 | The low bytes, zero-filled; the bigint is consumed. |
| Pkcs1.FramedUnique | nut/crypto/rsa.c:173-204 | A block frames at most one message. |
| Pkcs1.BlockFramed | nut/crypto/rsa.c:268-283 | Padding is undone by unpadding. |
| Pkcs1.BlockIs | nut/crypto/rsa.c:268-283 | The bytes of both blocks: 0, 2, non-zero padding, 0, data; and 0, 1, padding of 0xff, 0, data. |
| Pkcs1.EncryptionAccepted | nut/crypto/rsa.c:190-204 | An encryption block is accepted if and only if it is 0, 2, at least eight non-zero bytes, 0 and a message. |
| Pkcs1.SignatureAccepted | nut/crypto/rsa.c:175-204 | A signature block is accepted if and only if it is 0, 1, at least eight bytes 0xff, any other byte and a message. |
| Pkcs1.EmptyNotFramed | nut/crypto/rsa.c:201-204 | A padded empty message is never accepted. |
| Pkcs1.SeparatorAccepted | nut/crypto/rsa.c:183-184 | In verification a separator is accepted if and only if it is not 0xff. |
| Pkcs1.Unpad | nut/crypto/rsa.c:173-206 | Finds the message if and only if the block frames one. |
| RsaKey.PrivateUndoesPublic | nut/crypto/rsa.c:218-227 | Decryption gives back every residue, with one exponent or with the primes, under any reduction, when the exponents are inverse on residues. |
| RsaKey.PublicUndoesPrivate | nut/crypto/rsa.c:250-254 | Verification gives back every residue under the same condition on the exponents alone; with primes the signature is the recombination of two powers. |
| RsaKey.PrimesInvert | nut/crypto/rsa.c:43-76 | For two different primes, e d (or e dP and e dQ) congruent to 1 modulo p - 1 and q - 1 makes the exponents inverse on all residues. |
| Fermat.LittleTheorem | nut/crypto/rsa.c:218-227 | a^p leaves the remainder of a by a prime p: why the private exponents are taken modulo p - 1. |
| RsaKey.RoundTrip | nut/crypto/rsa.c:144-294 | For 1 to k - 11 bytes and any padding the recovered block is the padded block, for encryption and for signatures. |
| Rsa.RsaPublic | nut/crypto/rsa.c:250-254 | m^e mod n on objects under every reduction and form of key, for any message of the modulus length; the key stays in place. |
| Rsa.RsaPrivate | nut/crypto/rsa.c:218-227 | c^d mod n, or the recombination of two powers for any two primes, under every reduction, for Barrett with primes as in BarrettFull. |
| RsaBlocks.RsaEncrypt | nut/crypto/rsa.c:260-294 | The buffer receives the encrypted or signed block; -1 exactly when no padding could be had. |
| RsaBlocks.RsaDecrypt | nut/crypto/rsa.c:144-213 | The message and its length exactly when the recovered block frames one, zeros behind it; -1 otherwise or when the buffer is short. |
| RsaBlocks.EncryptThenDecrypt | nut/crypto/rsa.c:144-294 | The same bytes and length come back, encrypted or signed, under every reduction, with one exponent or with primes, when the modulus fills its bytes, the exponents are odd and inverse on residues (`RsaKey.PrimesInvert` gives that from the primes) and q <= p + 1; for Barrett the modulus is as in BarrettExact or BarrettFull and the primes as in BarrettFull. |
| RsaSession.NewKey | nut/crypto/rsa.c:43-97 | A ready key with its numbers under every reduction, every object accounted for. |
| RsaSession.NewCrtKey | nut/crypto/rsa.c:43-97 | The same with any two primes. |
| RsaSession.RsaFree | nut/crypto/rsa.c:102-132 | Releases everything; the bigint session finds nothing left in use. |
| RsaSession.Session | nut/crypto/rsa.c:43-294 | Whatever the requests between set-up and release, no object leaks; under Barrett reduction private requests take primes as in BarrettFull. |
| AesTables.InvSBoxInverts | nut/crypto/aes.c:77-150 | The second table inverts the first on all bytes. |
| AesStandard.XtimeIs | nut/crypto/aes.c:166-169 | Doubling is multiplication by x modulo x^8 + x^4 + x^3 + x + 1. |
| AesStandard.SBoxIs | nut/crypto/aes.c:77-112 | Every entry of the table is the affine transformation of the inverse in GF(2^8), as section 5.1.1 of FIPS 197 defines it. |
| AesColumn.XtimeLinear | nut/crypto/aes.c:166-169 | Doubling in GF(2^8) respects xor. |
| AesColumn.Mul2Bytes | nut/crypto/aes.c:55-60 | The packed doubling doubles each of the four bytes. |
| AesColumn.PackedBytes | nut/crypto/aes.c:62-72 | What the packed macro does to the four bytes. |
| AesInverse.CirculantsAgree | nut/crypto/aes.c:425-447 | Field-linear column functions that commute with rotation and agree on one column agree on all. |
| AesInverse.PackedIsInverse | nut/crypto/aes.c:62-72 | The packed macro and the per-byte code of decryption are the same function. |
| AesInverse.InvMixUndoesMix | nut/crypto/aes.c:376-385 | The column step of decryption undoes that of encryption. |
| Aes.InvSubShiftUndoes | nut/crypto/aes.c:416-422 | The byte step of decryption undoes that of encryption. |
| Aes.DecryptFollows | nut/crypto/aes.c:400-451 | With converted round keys decryption passes through the states of encryption in reverse. |
| Aes.DecryptUndoesEncrypt | nut/crypto/aes.c:350-451 | Every block comes back, for every key schedule and number of rounds. |
| AesStandard.EncryptIsCipher | nut/crypto/aes.c:350-395 | For every schedule and block the result is the cipher of section 5.1 of FIPS 197: SubBytes, ShiftRows, MixColumns and AddRoundKey on bytes, without MixColumns in the last round. |
| AesCbc.CbcRoundTrip | nut/crypto/aes.c:268-345 | Chained decryption undoes chained encryption for every iv and number of blocks. |
| AesCbc.CbcEncSplit | nut/crypto/aes.c:268-302 | Two calls through the stored iv are one call. |
| AesCbc.CbcDecSplit | nut/crypto/aes.c:307-345 | The same for decryption. |
| AesCbc.CallsRoundTrip | nut/crypto/aes.c:268-345 | However both sides are cut into calls, the plaintext comes back. |
| AesContext.AesCtx.SetKey | nut/crypto/aes.c:174-244 | The expanded key of FIPS 197 for both sizes; unknown modes change nothing. |
| AesStandard.ExpansionBytes | nut/crypto/aes.c:199-240 | The expanded key byte by byte: rotation, substitution and the powers of x as round constants, for both sizes. |
| AesStandard.ChainedBlock | nut/crypto/aes.c:268-302 | Ciphertext block k is the cipher of plaintext block k plus the ciphertext block before it, or the iv. |
| AesContext.AesCtx.ConvertKey | nut/crypto/aes.c:249-263 | Exactly the inner round keys are converted, in place. |
| AesContext.AesCtx.Encrypt | nut/crypto/aes.c:350-395 | One block in place. |
| AesContext.AesCtx.Decrypt | nut/crypto/aes.c:400-451 | One block in place. |
| AesContext.AesCtx.CbcEncrypt | nut/crypto/aes.c:268-302 | The whole blocks of the input, and the iv left behind. |
| AesContext.AesCtx.CbcDecrypt | nut/crypto/aes.c:307-345 | The whole blocks of the input, and the iv left behind. |
| AesContext.EncryptThenDecrypt | nut/crypto/aes.c:174-345 | Two contexts with the same key: the whole blocks of every message come back. |
| Hashing.StreamBlock | nut/crypto/sha256.c:221-228 | Completing a block compresses the buffered bytes with the new ones. |
| Hashing.StreamBuffer | nut/crypto/sha256.c:237-240 | Bytes that do not fill the block stay buffered. |
| Hashing.PaddingLength | nut/crypto/sha256.c:259-260 | The code's padding length is the standard's smallest one. |
| Hashing.BigEndian8 | nut/crypto/sha256.c:252-257 | The two stored words are the 64-bit length field. |
| Hashing.BigEndianIs | nut/crypto/sha256.c:42-48 | The bytes written stand for the number in base 256, most significant first. |
| Hashing.LittleEndianIs | nut/crypto/md5.c:156-175 | The mirrored statement, least significant first. |
| Hashing.PaddedIs | nut/crypto/sha256.c:246-273 | The padded message written out: message, 0x80, the fewest zeros, and a field that stands for the bit count. |
| Hashing.AbsorbOne | nut/crypto/sha256.c:221-235 | Nothing absorbed is the initial value, and one block is one compression. |
| Sha256.InitialStateIs | nut/crypto/sha256.c:61-73 | The first 32 fraction bits of the square roots of the first eight primes. |
| Sha512.InitialStateIs | nut/crypto/sha512.c:80-96 | The first 64 fraction bits of the same roots. |
| Sha1.InitialStateIs | nut/crypto/sha1.c:52-62 | The five words of the standard, as byte patterns. |
| Md5.InitialStateIs | nut/crypto/md5.c:104-115 | The four words of the standard, as byte patterns. |
| Sha256.Sha256Ctx.Update | nut/crypto/sha256.c:210-241 | State, buffer and counters are functions of the bytes accepted, however they were cut. |
| Sha256.Sha256Ctx.Final | nut/crypto/sha256.c:246-273 | The hash of exactly the standard padded message. |
| Sha256.CountBytes | nut/crypto/sha256.c:215-219 | The two counters hold the byte count through every carry. |
| Md5.Md5Ctx.Update | nut/crypto/md5.c:120-151 | The same for MD5, with bit counters. |
| Md5.Md5Ctx.Final | nut/crypto/md5.c:156-175 | The hash of the padded message with a little-endian length. |
| Md5.CountBits | nut/crypto/md5.c:128-131 | The bit counters, carry and high part included. |
| Sha1.Sha1Ctx.Update | nut/crypto/sha1.c:67-82 | The same for SHA-1, byte by byte. |
| Sha1.Sha1Ctx.PadMessage | nut/crypto/sha1.c:203-248 | One or two final blocks, as the standard pads. |
| Sha1.Sha1Ctx.Final | nut/crypto/sha1.c:87-100 | The hash of the padded message. |
| Sha512.Sha512Ctx.Update | nut/crypto/sha512.c:156-184 | The same for SHA-512. |
| Sha512.Sha512Ctx.Final | nut/crypto/sha512.c:189-218 | The hash of the message padded with its length modulo 2^64 bits, which is the standard's hash for all lengths below 2^64 bits. |
| Sha512.SourcePaddedIs | nut/crypto/sha512.c:189-218 | For every length below 2^128 bits the padding is the standard's if and only if the length is below 2^64 bits. |
| Sha512.LongMessage | nut/crypto/sha512.c:189-218 | Messages of 2^61 bytes are padded differently. |
| Hmac.HmacMd5 | nut/crypto/hmac.c:44-71 | H(K xor opad, H(K xor ipad, m)) for keys of up to 64 bytes. |
| Hmac.HmacSha1 | nut/crypto/hmac.c:77-104 | The same over SHA-1. |
| Hmac.HmacSha256 | nut/crypto/hmac.c:110-137 | The same over SHA-256. |
| Hmac.KeyedIs | nut/crypto/hmac.c:110-137 | The pads are the key, filled with zeros, combined with 0x36 and 0x5c. |
| Hmac.BigEndianDigest | nut/crypto/sha256.c:265-272 | Each four digest bytes stand for a word of the chaining value. |
| Hmac.LittleEndianDigest | nut/crypto/md5.c:170-175 | The same, least significant byte first. |
| Vis.VisByte | nut/crt/vis.c:88-187 | One to four characters for every byte and flag set. |
| Vis.EncodeCut | nut/crt/vis.c:202-211 | A cut between bytes is a cut between encodings. |
| VisShape.RawExactly | nut/crt/vis.c:43-52 | Without VIS_HTTPSTYLE a byte stands for itself if and only if it is printable, or a blank no flag asks for, or bell, backspace or return under VIS_SAFE, and no pattern character that VIS_GLOB without VIS_SAFE asks for. |
| VisShape.HexExactly | nut/crt/vis.c:92-106 | With VIS_HTTPSTYLE a byte is percent and two hexadecimal digits of it if and only if it is reserved in a URI. |
| VisShape.OctalEscapes | nut/crt/vis.c:154-163 | With VIS_OCTAL alone every escape is a backslash and three octal digits of the byte. |
| VisShape.CEscapes | nut/crt/vis.c:115-153 | With VIS_CSTYLE eight bytes take their letter, and NUL its short or long form. |
| VisShape.MetaEscapes | nut/crt/vis.c:164-183 | The exact caret, meta and octal forms of the default style. |
| VisShape.FlagsApart | nut/crt/vis.c:88-187 | Where VIS_HTTPSTYLE and VIS_CSTYLE make no difference. |
| VisShape.SlashApart | nut/crt/vis.c:164-183 | VIS_NOSLASH only drops the backslash of these forms. |
| VisShape.EncodingShows | nut/crt/vis.c:202-211 | Every character of every encoding is printable or one that the flags allow to stand. |
| VisShape.GlobEscaped | nut/crt/vis.c:154-163 | Under VIS_GLOB a pattern character only appears inside an escape. |
| VisShape.UriEncoding | nut/crt/vis.c:92-106 | Under VIS_HTTPSTYLE an encoding is URI text if and only if VIS_GLOB does not make an escape of an asterisk. |
| Vis.StrVis | nut/crt/vis.c:202-211 | The encoding of a C string, at most four times as long. |
| Vis.StrVisx | nut/crt/vis.c:284-297 | The same encoding for any bytes. |
| Unvis.VisByteDecodes | nut/crt/unvis.c:62-241 | Every encoding decodes to its byte, whatever follows it. |
| Unvis.RoundTrip | nut/crt/unvis.c:243-270 | Decoding gives back every byte string, for all flags but VIS_NOSLASH. |
| Unvis.StrUnvisx | nut/crt/unvis.c:243-270 | The decoder with its push-back, and the empty result when the flags contain VIS_OCTAL. |
| UnvisShape.Escapes | nut/crt/unvis.c:91-168 | What every character behind a backslash means, hidden newline and marker and errors included. |
| UnvisShape.Octals | nut/crt/unvis.c:197-221 | One to three octal digits, modulo 256. |
| UnvisShape.ControlAndMeta | nut/crt/unvis.c:170-195 | Control and meta sequences for every character. |
| UnvisShape.Hexadecimal | nut/crt/unvis.c:223-241 | Two hexadecimal digits of either case behind a percent sign. |
| UnvisShape.Plain | nut/crt/unvis.c:76-89 | Any other character stands for itself. |
| Unvis.OctalFlagDecodesNothing | nut/crt/unvis.c:65-71 | Every encoding, decoded with flags that contain VIS_OCTAL, gives the empty string. |
| Unvis.EncodeThenDecode | nut/crt/vis.c:284-297 | The round trip through both functions. |
| VisBuffers.FormsDiffer | nut/crt/vis.c:231-253 | `strnvis` and `vis` write the same for a byte if and only if it is not a visible one that VIS_HTTPSTYLE encodes. |
| VisBuffers.ShortIsEncoding | nut/crt/vis.c:231-253 | Without such bytes the prefixes are those of the encoding. |
| VisBuffers.StrnVis | nut/crt/vis.c:224-265 | The longest prefix that fits and ends between the forms of two bytes, NUL-terminated, nothing past the buffer; the length of prefix and encoded rest is returned except for one-byte buffers, which is the full length unless a byte is copied raw. |
| VisShape.PrefixShows | nut/crt/vis.c:224-265 | What `strnvis` writes is printable or allowed, too. |
| VisBuffers.StrnUnvis | nut/crt/unvis.c:286-324 | The full decoded length, the bytes that fit, NUL-terminated, nothing past the buffer. |
| EnvImage.CompareIs | nut/crt/setenv.c:112-135 | The order of names is decided by the first differing position, or by length. |
| EnvImage.ImageIs | nut/crt/setenv.c:47-84 | The stored bytes: magic number, name and value of each entry with a NUL behind each, and a last NUL. |
| EnvImage.StorableIs | nut/include/sys/environ.h:44 | Names of 1 to 64 and values of up to 64 characters without NUL. |
| EnvImage.InsertKeepsOrder | nut/crt/setenv.c:112-135 | Inserting before the first larger name keeps the list strictly sorted. |
| Environ.ReadString | nut/crt/environ.c:48-71 | Reads a stored string and stops behind its NUL. |
| Environ.Environment.FindEnv | nut/crt/environ.c:81-144 | An empty list is read back from storage exactly; then the name is found if it is there. |
| Environ.Environment.Save | nut/crt/setenv.c:47-84 | Storage holds the image of the list; an empty list is not written. |
| Environ.Environment.LinkIn | nut/crt/setenv.c:112-135 | Both link directions agree after an insertion. |
| Environ.Environment.LinkOut | nut/crt/setenv.c:184-192 | Both link directions agree after a removal. |
| Environ.Environment.SetEnv | nut/crt/setenv.c:96-153 | The one entry changed or inserted; list and storage stay in step. |
| Environ.Environment.UnsetEnv | nut/crt/setenv.c:176-199 | The one entry removed; storage follows unless the list became empty. |
| Environ.UnsetThenGet | nut/crt/setenv.c:176-199 | A removed variable is gone if and only if another one remained. |
| Environ.Run | nut/crt/setenv.c:96-199 | The invariant over every sequence of operations and restarts. |
| Environ.Restart | nut/crt/environ.c:90-137 | After a restart the list is read back as it was saved. |
| WaitList.ManageWq | nut/crt/select.c:135-189 | Puts an entry at the head, or takes out the first one of the queue. |
| WaitList.UnhookedKeepsOthers | nut/crt/select.c:157-185 | Other callers' entries keep their order. |
| WaitList.SelectWakeup | nut/crt/select.c:80-88 | Signals exactly the queues with an interested entry. |
| WaitList.WokenIs | nut/crt/select.c:80-88 | A queue is signalled if and only if one of its entries waits for one of the events. |
| SelectProtocol.NextOk | nut/crt/select.c:219-320 | Every step of every caller and device keeps the protocol invariant. |
| SelectProtocol.NoLostWakeup | nut/crt/select.c:290-320 | No reachable state has a caller asleep and unsignalled with a requested event ready and no wakeup to come. |
| SelectProtocol.ReturnsClean | nut/crt/select.c:316-319 | On return no entry is left on any list and only requested events are reported. |
| SelectReports.ReportsStay | nut/crt/select.c:219-247 | Until the next call nothing that was reported is taken back. |
| SelectReports.ScanLooks | nut/crt/select.c:219-247 | The scans before the last one report what is ready when they look, too. |
| SelectReports.LastScanLooks | nut/crt/select.c:242-247 | The last scan reports every requested event that is ready when it looks. |
| SelectReports.ReadyIsReported | nut/crt/select.c:316-319 | On return every requested event that was ready throughout the last scan is reported. |
| SelectReports.ReportedWasReady | nut/crt/select.c:219-247 | Nothing is reported that was not ready at some moment of the run. |
| SelectReports.SleepsUninformed | nut/crt/select.c:290-316 | A caller that waits or sleeps has seen no event. |
| SelectReports.PhasesInOrder | nut/crt/select.c:290-320 | How a call moves from scan to scan, to sleep and to return. |
| SelectReports.CallsGoOn | nut/crt/select.c:290-320 | In every reachable state a caller that has not returned can take a step. |
| SelectReports.CallIsShort | nut/crt/select.c:290-320 | With n descriptors a call takes at most 4 n + 6 steps of its own, whatever the others do. |
| SelectProtocol.OthersKeepOrder | nut/crt/select.c:135-189 | A caller's steps leave the entries of all others in their order. |
| SelectProtocol.OneScanIsEnough | nut/crt/select.c:299-305 | If drivers register before they look, sleeping after the first scan would be safe. |
| SelectProtocol.SecondScanNeeded | nut/crt/select.c:299-305 | A run in which it would not. |
| Transmit.NicInfo.TransmitInterrupt | nut/dev/dm9000.c:431-445 | Starts the queued frame, if any, and counts down. |
| Transmit.NicInfo.PutPacket | nut/dev/dm9000.c:662-716 | Starts or queues a frame, unless the controller is out of order. |
| Transmit.NextOk | nut/dev/dm9000.c:920-976 | Every step of callers, controller and interrupt keeps the queue invariant. |
| Transmit.QueueSafe | nut/dev/dm9000.c:417-445 | At most two queued, a stored length exactly with two, every accepted frame started once, in order, at its length, never over another. |
| Transmit.DrainedSentAll | nut/dev/dm9000.c:431-445 | An empty queue means that everything accepted has been sent. |
| Transmit.PutAccepts | nut/dev/dm9000.c:662-716 | A frame is accepted exactly by a successful put, and started at once when nothing is queued. |
| Transmit.SuccessMeansAccepted | nut/dev/dm9000.c:920-976 | A call about to report success has had its frame accepted. |
| Transmit.OneAtATime | nut/dev/dm9000.c:920-976 | At most one caller is past the mutex. |
| Transmit.QueueDrains | nut/dev/dm9000.c:431-445 | A queue that is not empty goes on: completion, interrupt, the next frame. |
| Transmit.CallsGoOn | nut/dev/dm9000.c:920-976 | Every unfinished call can take a step or waits for the mutex. |
| Transmit.ZeroLengthLost | nut/dev/dm9000.c:433-441 | A length of zero in the second slot would never be started. |
| Transmit.OutputSizeSendable | nut/dev/dm9000.c:934-940 | Any link header makes the length positive. |
| Calendar.CycleDays | nut/crt/gmtime.c:111-117 | Before 2100 the Gregorian day count has four-year cycles. |
| Calendar.MonthTableIs | nut/crt/gmtime.c:77-82 | Both month tables agree with the month lengths. |
| Calendar.CalendarIs | nut/crt/gmtime.c:77-82 | The Gregorian rule and the twelve month lengths, as numbers. |
| Calendar.EpochIs | nut/crt/gmtime.c:100-176 | Second zero is Thursday, 1 January 1970. |
| Calendar.WeekdayIs | nut/crt/gmtime.c:165 | The weekday counts on from that Thursday. |
| Calendar.GmTime | nut/crt/gmtime.c:100-176 | For every time before 2100: proper fields that stand for the same second. |
| Calendar.SecondsInjective | nut/crt/gmtime.c:100-176 | Different proper dates are different seconds. |
| Calendar.BackAndForth | nut/crt/gmtime.c:100-176 | Calendar to seconds and back is the identity. |
| Dst.NthDay | nut/crt/tzset.c:84-117 | The n-th or last given weekday of a month, for every year before 2100. |
| Dst.NthUnique | nut/crt/tzset.c:84-117 | There is only one such day. |
| Dst.Transitions2005 | nut/crt/tzset.c:166-227 | The last Sundays of March and October 2005, at two o'clock. |
| Dst.Period2005 | nut/crt/tzset.c:166-227 | The period of 2005 in milliseconds of the year, with a bias of minus one hour. |
| Dst.Zone.ConvertEnd | nut/crt/tzset.c:139-160 | The end of the period in standard time, with day overflow. |
| Dst.Zone.IsInDst | nut/crt/tzset.c:166-227 | Membership in the half-open period of the year, whatever is cached. |
| Dst.SameAnswer | nut/crt/tzset.c:64-65 | Two caches with different histories give the same answer. |

## Left out

- 8- and 16-bit component builds, and the limit of the `short` size field outside Barrett reduction.
- Karatsuba multiplication of two different operands, which no board file selects; products use `regular_multiply`.
- `bi_mod_power2`, `bi_str_import`, `bi_print`, `bi_free_mod` as a function of its own (its work is part of `RsaSession.RsaFree`), and the debug checks.
- Modular powers without the sliding window, and squaring through `bi_multiply`.
- Divide.BiDivide: requires a dividend with a single reference, since the source may divide in place; what becomes of the other references is not stated.
- Divide.BiDivide: requires is_mod or a dividend as long as the divisor, see `Divide.ShortDividend`.
- Crt.BiCrt: with Barrett reduction, primes that are not as in `BarrettTheory.BarrettFull`, see `Crt.FullPrimesNeeded`.
- Rsa.RsaPrivate: with Barrett reduction, keys with such primes.
- RsaBlocks.RsaEncrypt: with Barrett reduction, signing with such primes; encryption has no such limit.
- RsaBlocks.RsaDecrypt: with Barrett reduction, decryption with such primes; verification has no such limit. It also clears the output buffer after the private operation rather than before it, while nothing reads it in between.
- RsaBlocks.EncryptThenDecrypt: with Barrett reduction, keys with such primes.
- RsaSession.Session: with Barrett reduction, requests to sign or decrypt with such primes; their set-up, release and public operations have no such limit.
- RsaSession.NewKey: with Montgomery reduction the modulus must not have a leading zero byte, since R would then not have room for every input; the other reductions take such keys.
- RsaSession.NewCrtKey: the same leading zero byte with Montgomery reduction.
- Key generation.
- The compression functions of MD5, SHA-1, SHA-256 and SHA-512, and SHA-384.
- Overlapping input and output buffers in CBC mode; the output is returned as a sequence.
- `vis` outside the C locale, and the round trip with VIS_NOSLASH, which is ambiguous by design.
- Allocation and storage failures in the environment, and variables without a value.
- `select`'s checks of its descriptor sets and its timeout arithmetic; devices without a select function.
- `do_select` as sequential code: it is modelled by its interleaved steps.
- Transmit.NicInfo.PutPacket: does not model the transfer of the frame bytes, only their order and lengths; the receive path, restart and multicast code of the driver are not part of this model.
- Transmit.NicInfo.TransmitInterrupt: the new transmit request and the clearing of the interrupt status that follows it are one atomic step.
- Times before 1970, the absolute-day form of `cvtdate`, `mktime` and `localtime`.
- Timing, secrecy and side channels.
