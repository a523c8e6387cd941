# Secrets storage: proofs about the wallet backend, the daemon backend and the new store

This project models three storage stacks of the secrets service and proves what they keep.

**The KWallet file backend** is a streaming SHA-1, Blowfish, a chaining wrapper and the wallet
itself. `Sha1.dfy` follows the unrolled compression with its circular schedule and its 64-bit
accumulators and proves it equal to `Fips180.dfy`, which is sections 5.1.1, 5.3.1, 6.1.1 and 6.1.2
of FIPS 180-4 written from the standard; `Words.dfy` says in numbers what the operations on words
do, and `Sha1Example.dfy` computes the published example. `Feistel.dfy` and `Blowfish.dfy` are the
cipher and its key schedule, compared with `BlowfishPaper.dfy`, which is the published description
of Blowfish in numbers, `Chaining.dfy` and `Cbc.dfy` the chaining object, `PasswordHash.dfy` the key
derivation. `WalletFormat.dfy`, `WalletFile.dfy` and `WalletBackend.dfy` are the printer and the
parser of the wallet file, `WalletLayout.dfy` says by the bytes which files open, `WalletIndex.dfy`
is the digest index that has to agree with the folders, and `WalletReading.dfy` says what reading
gives after the operations. `QtStream.dfy` states the QDataStream encodings that the format is made of.

**The daemon backend** is a device that encrypts what passes through it in chunks
(`ChunkStream.dfy`, `KSecretDevice.dfy`) and a collection that searches its items through a
multi-hash (`LookupIndex.dfy`, `KSecretCollection.dfy`).

**The new store** is a text codec (`TextCodec.dfy`) in a stream buffer padded to cipher blocks
(`CryptBuffer.dfy`), an authenticated file (`SecretsDevice.dfy`, `SecretsImage.dfy`,
`SecretsFile.dfy`) and a save by backup and rename (`SaveSteps.dfy`).

Each stack has classes whose methods follow the source's methods, proved against functions on
values, and lemmas about those functions. Modules named after a class hold the class; their
neighbours (`Feistel`, `Chaining`, `WalletFile`, `WalletIndex`, `ChunkStream`, `LookupIndex`,
`SecretsImage`, `SaveSteps`) hold the functions and the theorems.

## Main results

* The SHA-1 compression is the standard's; any split of a message into pieces gives the digest of
  the whole; the padding is the standard's if and only if the bit count comes out right and the
  message does not end 55 bytes into a block (`Sha1.PadMatchesStandard`), and the bit count does
  if and only if `len < 2^32` and `8 * len mod 2^32 >= len` (`Sha1.LengthFieldExact`), which every
  length below 2^29 meets and 2^29 itself does not.
* Enciphering and deciphering are those of the published Blowfish for every content of the tables
  (`Feistel.EncipherIsPaper`), the tables of every key are the published subkeys
  (`Feistel.KeyScheduleIsPaper`), and the two undo each other in both orders, block by block and
  over buffers.
* A wallet file opens if and only if it is the magic and version, a count of at most 0xffff, a whole
  digest block, and whole blocks that a usable key decrypts to a payload with the size of its data,
  the data, and their SHA-1 at the end (`WalletLayout.AcceptedIff`; memory stands in for the first
  four of these twenty bytes if the payload has only sixteen).
* After every run of operations, reading a wallet gives what the run tells, key by key: a reference
  that knows no maps and no digests (`WalletReading.RunGives`). In particular it gives the last
  entry written that has not been removed, renamed, closed or read anew since.
* Buffers of non-increasing lengths, encrypted by one chaining object and decrypted by another,
  come back whatever surrounds them. Of any run at all, with lengths that grow again, with parts of
  blocks or without a key, everything comes back if and only if every link agrees
  (`Chaining.RunUndoneIff`).
* A saved wallet opens with code 0 if and only if it has at most 0xffff folders, and then gives the
  same folders, keys, types and values if and only if every entry is of a known type. Saved under a
  password, it opens with that password in a new object, with an exact index.
* Over any run of operations, with closing, creating and opening files of any content among them,
  the index answers rightly in every state in which the wallet is open if and only if it does so at
  first, if it is open then, and every step meets a condition on the wallet before it and on what
  the call is given. A write, a rename or a listing on an open wallet has its current folder. A
  creation finds a right index, which without folders is one that knows none of the names. A file
  that the key opens has a digest block that agrees with its folders laid over those in memory.
  The same holds for every state, closed ones too, if in addition a rename has its folder, a close
  finds none of the names in the index, and a file that is refused behind its header has digests
  that agree with the folders in memory (`WalletIndex.IndexIsExactOverRuns`, for either reading).
* After any attempt to open a file that `sync` wrote with at most 0xffff folders, with its key or
  another, both queries answer for the wallet in the file (`WalletIndex.QueriesAnswerForFile`).
* Every kind of step that can make an index wrong has inputs on which it does, in `WalletIndex`:
  `MissingFolderAppears` (writing, renaming, listing), `ClosedFolderLingers` (closing and creating),
  `WrongKeyLeavesIndex` and `ForeignDigestsOpen` (opening); the last has the exact condition on the
  names and digests.
* Reads of the sizes that were written deliver what was written through the chunked device, if its
  base device takes all it is given.
* The indexed search of a collection is the scan of its items for every iteration order of the
  hash. Items whose attributes have a value that accepts itself, as every value but a pattern
  does, stay different in a run if and only if every change of attributes was to ones that no
  other item has; creating looks for an equal item itself, and finds it if and only if its
  attributes have such a value.
* A directory of collections is read back from its padded text if and only if it is not empty or
  the digits that happen to follow its length are all zero.
* A file of the new store is accepted if and only if it is an image: a header, the number of
  entities, entities that can be read, and a code accepted for exactly these bytes.
* A run of saves, stopped wherever it may be, never leaves part of a file in place and never loses
  the last image; with the store set up anew in between, it keeps it if and only if no save backs
  up a file other than that image. What is put in place is checked only afterwards: the store can
  be opened from the path or the backup at every moment if and only if no save backs up a file
  that does not open (`SaveSteps.RecoverableIffGoodBackups`), and what a ready engine saved opens
  if and only if every empty directory in it can be read with its random tail
  (`SecretsImage.SavedOpensIff`).
* A created file opens if and only if the disk took all of it (`SecretsFile.CreatedOpensIff`), which
  is not what `create` reports.

## What the model assumes

* MD5 is a function of a string to 16 bytes, without collisions among a given set of names only.
  The ciphers and the authentication code of QCA and libgcrypt are functions given to the model; a
  result says which property of them it uses (decryption undoes encryption, lengths are kept, a
  code is accepted for the bytes it was computed from).
* The outcome of opening, writing, renaming and locking, random bytes, the time, and the order in
  which hashes and maps are iterated are parameters, arbitrary unless a contract says otherwise.
  What a short or overlong read finds in memory is the parameter `stale` of the wallet's parser,
  and the value of a number before it is read the parameter `junk` of the new store's.
* The tables that Blowfish starts from are any tables of the right sizes.
* QDataStream, QList, QMap, QHash and the C++ streams belong to libraries that are not part of the
  repository; they are modelled from their documented behaviour. The digest is computed from the
  string, not from its UTF-8 form.
* A host is little-endian with a 64-bit `long` and `size_t`; sizes of one wallet stay below 2^31.

## Where the code differs from what it promises

The model follows the code in each of these.

* `kwalletbackend.h` says that a failed opening forgets the hash of the password; the code wipes
  it only when the cipher refuses to decrypt (code -6). Closing forgets the folders and the key
  but keeps the digest index, and creating a wallet afterwards does not clear it: the new wallet
  then reports folders of the one before (`WalletIndex.ClosedFolderLingers`).
* The index of an opened file is its digest block as it stands. The block is neither part of what
  the digest in the payload covers nor compared with the folders
  (`WalletIndex.ForeignDigestsOpen`). It stays when the key is then refused
  (`WalletIndex.WrongKeyLeavesIndex`).
* `writeEntry`, `renameEntry` and `readEntryList` make the current folder if it is not there,
  without telling the index (`WalletIndex.MissingFolderAppears`).
* `writeData` of the chunked device reports data as written that the base device refused, if it was
  in a chunk (`KSecretDevice.ChunkArrivesIff`).
* `openInternal` on a missing or very short file saves the new wallet but does not look at the
  result of saving; it returns 1 in any case.
* The wallet file is encrypted by a single call, so its blocks are not chained at all
  (`Chaining.FirstCallIsBlockwise`).
* A weak key is refused by `setKey` but leaves an object ready that was ready before.
* `searchItems` promises the items that match the search terms, and all of them if there are
  none. The code returns the items that share at least one attribute with the query, and none for
  an empty query (`LookupIndex.SearchFindsMatches`). A `regexp:` value is matched against itself
  rather than against an item.
* A wrong separator in the new store's text is noticed and then ignored
  (`TextCodec.WrongSeparatorIsAccepted`), and a buffer with no text at all may read as an empty
  directory (`TextCodec.NoTextDirectory`).
* `save` puts the new file in place before it checks that the file opens, so that two saves of
  images that do not open leave none that does (`SaveSteps.TwoBadSavesLeaveNone`). An empty
  directory with a 1 at the head of the random tail is such an image (`TextCodec.UnluckyTail`).
* Writing an entity does not look at whether encryption succeeded; if the engine refuses, random
  bytes are saved in its place (`CryptBuffer.Encoded`).
* `create` of the new store succeeds as soon as the header and the count have been written, even
  if the code behind them has not. A write of either that is cut short does not set `errno`, which
  is returned all the same and may be 0 (`SecretsFile.CreationReported`).

## Model

| member | source | states |
|---|---|---|
| Sha1.ChooseIsCh | src/runtime/kwl2kss/kwalletbackend/sha1.cc:43 | the macro `F1` is the choice function of FIPS 180-4 |
| Sha1.MajorityIsMaj | src/runtime/kwl2kss/kwalletbackend/sha1.cc:45 | the macro `F3` is the majority function of FIPS 180-4 |
| Sha1.FAtIsF | src/runtime/kwl2kss/kwalletbackend/sha1.cc:117-196 | every step of the unrolled rounds uses the function that the standard gives its number |
| Sha1.KAtIsK | src/runtime/kwl2kss/kwalletbackend/sha1.cc:39-42 | and its constant |
| Sha1.RolIsRotl | src/runtime/kwl2kss/kwalletbackend/sha1.cc:36 | the macro `rol`, by shifts, is the rotation of section 3.2, for the distances used |
| Sha1.RotlIs | src/runtime/kwl2kss/kwalletbackend/sha1.cc:36 | in numbers: 2^n times the word modulo 2^32, plus the n bits that came out at the top |
| Sha1.AddLongWraps | src/runtime/kwl2kss/kwalletbackend/sha1.cc:52-57 | the sum in the macro `R`, taken in 64 bits and stored in 32, is the sum modulo 2^32 |
| Sha1.MWordIsNextWord | src/runtime/kwl2kss/kwalletbackend/sha1.cc:48-50 | the macro `M` on its four words is the schedule recurrence of section 6.1.2 |
| Sha1.NextWord | src/runtime/kwl2kss/kwalletbackend/sha1.cc:48-50 | with the last sixteen words in a circular buffer, the indices `M` uses give the next schedule word (the alternate method of section 6.1.3) |
| Sha1.WindowSlides | src/runtime/kwl2kss/kwalletbackend/sha1.cc:48-50 | storing that word in place keeps the buffer the window of the last sixteen |
| Sha1.R | src/runtime/kwl2kss/kwalletbackend/sha1.cc:52-57 | one use of the macro, seen with the names rotated, is one step of the round loop |
| Sha1.FiveSteps | src/runtime/kwl2kss/kwalletbackend/sha1.cc:117-196 | five unrolled lines are five steps of the loop and bring the register names back |
| Sha1.SHA1.Transform | src/runtime/kwl2kss/kwalletbackend/sha1.cc:92-204 | the unrolled compression, with in-place schedule and 64-bit accumulators, is the compression function of section 6.1.2 |
| Sha1.SHA1.Accumulate | src/runtime/kwl2kss/kwalletbackend/sha1.cc:198-202 | adding the registers to the `long` accumulators adds them modulo 2^32 to the hash value |
| Sha1.SHA1.Reset | src/runtime/kwl2kss/kwalletbackend/sha1.cc:67-79 | nothing seen, ready |
| Sha1.SHA1.Parts | src/runtime/kwl2kss/kwalletbackend/sha1.cc:212-255 | bytes seen are 64 times the block counter plus the buffer count, the registers are the fold of the compression over the whole blocks and the buffer holds the rest |
| Sha1.SHA1.Process | src/runtime/kwl2kss/kwalletbackend/sha1.cc:212-255 | returns the length given, or -1 on an object that is not ready, and appends exactly the bytes given to those seen, whatever the buffer held |
| Sha1.SHA1.Fill | src/runtime/kwl2kss/kwalletbackend/sha1.cc:231-234 | copies as many bytes as fit the block, in order |
| Sha1.SHA1.Wholes | src/runtime/kwl2kss/kwalletbackend/sha1.cc:241-248 | compresses every whole block of the input and leaves less than one |
| Sha1.SHA1.CountBits | src/runtime/kwl2kss/kwalletbackend/sha1.cc:269-289 | the shifts and wrap tests give the two words of `BitCount` |
| Sha1.ShortBitCount | src/runtime/kwl2kss/kwalletbackend/sha1.cc:269-289 | below 2^32 bytes the high word is one too large exactly when the last wrap test fires |
| Sha1.AnyBitCount | src/runtime/kwl2kss/kwalletbackend/sha1.cc:269-289 | both words for a length of any size: the low one is right, the high one has six bits of the multiples of 2^32 and carries that may not be due |
| Sha1.LongBitCount | src/runtime/kwl2kss/kwalletbackend/sha1.cc:269-289 | from 2^32 bytes on the high word is always too small |
| Sha1.LengthFieldExact | src/runtime/kwl2kss/kwalletbackend/sha1.cc:269-289 | the length field is the standard one if and only if the length is below 2^32 and eight times it modulo 2^32 is not below it |
| Sha1.FirstWrongCount | src/runtime/kwl2kss/kwalletbackend/sha1.cc:285-289 | at 2^29 bytes the high word is 2 instead of 1 |
| Sha1.PadZerosAgree | src/runtime/kwl2kss/kwalletbackend/sha1.cc:291-303 | 64 zero bytes too many exactly when the message ends 55 bytes into a block |
| Sha1.PadMatchesStandard | src/runtime/kwl2kss/kwalletbackend/sha1.cc:267-312 | the padded message is that of section 5.1.1 if and only if the length field is exact and the length modulo 64 is not 55 |
| Sha1.ShortMessages | src/runtime/kwl2kss/kwalletbackend/sha1.cc:267-312 | below 2^29 bytes the digest is the standard one unless the length is 55 modulo 64, and then the padding has 64 more zeros and the right length field |
| Sha1.SHA1.PadBuffer | src/runtime/kwl2kss/kwalletbackend/sha1.cc:291-303 | whole blocks have been compressed and the buffer lacks only the length field of the padded message |
| Sha1.SHA1.StoreDigest | src/runtime/kwl2kss/kwalletbackend/sha1.cc:321-329 | the digest is the five registers, most significant byte first |
| Sha1.SHA1.Hash | src/runtime/kwl2kss/kwalletbackend/sha1.cc:258-336 | the digest of everything seen since the reset, as the fold of the compression over the padded message; a second call returns the buffer unchanged |
| Sha1.DigestOfPieces | src/runtime/kwl2kss/kwalletbackend/sha1.cc:212-336 | any split of a message into calls gives the digest of the message |
| Sha1Example.ExampleDigest | src/runtime/kwl2kss/kwalletbackend/sha1.cc:36-336 | the digest of "abc", of the standard and of the class, is the published one |
| Feistel.DecFollowsEnc | src/runtime/kwl2kss/kwalletbackend/blowfish.cc:218-257 | after n rounds of deciphering an enciphered block the halves are those of enciphering after 16 - n rounds, whitened |
| Feistel.DecipherEncipher | src/runtime/kwl2kss/kwalletbackend/blowfish.cc:218-257 | deciphering undoes enciphering for every content of the tables |
| Feistel.RoundsReversed | src/runtime/kwl2kss/kwalletbackend/blowfish.cc:239-257 | deciphering is enciphering with the subkeys reversed |
| Feistel.FIsPaper | src/runtime/kwl2kss/kwalletbackend/blowfish.cc:198-215 | the round function is the published one: quarters of the number, sums modulo 2^32 and one exclusive or |
| Feistel.EncipherIsPaper | src/runtime/kwl2kss/kwalletbackend/blowfish.cc:218-236 | enciphering is the published encryption for all tables and halves |
| Feistel.DecipherIsPaper | src/runtime/kwl2kss/kwalletbackend/blowfish.cc:239-257 | deciphering is the published decryption, with the subkeys reversed |
| Feistel.BlocksArePaper | src/runtime/kwl2kss/kwalletbackend/blowfish.cc:150-195 | each block of a buffer is two little-endian numbers, encrypted or decrypted as published, on its own |
| Feistel.EncipherDecipher | src/runtime/kwl2kss/kwalletbackend/blowfish.cc:218-257 | enciphering undoes deciphering for every content of the tables |
| Feistel.DecryptEncrypt | src/runtime/kwl2kss/kwalletbackend/blowfish.cc:150-195 | over buffers of whole blocks decryption undoes encryption |
| Feistel.EncryptDecrypt | src/runtime/kwl2kss/kwalletbackend/blowfish.cc:150-195 | and encryption undoes decryption |
| Feistel.KeyWordBytes | src/runtime/kwl2kss/kwalletbackend/blowfish.cc:62-71 | subkey material i is the key bytes (4i) to (4i+3) modulo the key length, most significant first |
| Feistel.RepeatedKey | src/runtime/kwl2kss/kwalletbackend/blowfish.cc:46-101 | a key written twice gives the tables of the key |
| Feistel.KeyedIs | src/runtime/kwl2kss/kwalletbackend/blowfish.cc:62-71 | the P-array with the key mixed in is that of the publication, 32 key bits to a subkey, over and over |
| Feistel.KeyScheduleIsPaper | src/runtime/kwl2kss/kwalletbackend/blowfish.cc:46-85 | the P-array and then the boxes of a key, all 1042 words, are replaced two at a time and in order by encrypting the two before with the subkeys as they are then |
| Feistel.WeakIff | src/runtime/kwl2kss/kwalletbackend/blowfish.cc:87-96 | a key is weak if and only if a word comes twice in one box |
| Blowfish.BlowFish.MixKey | src/runtime/kwl2kss/kwalletbackend/blowfish.cc:62-71 | the P-array is the constants with the key words mixed in |
| Blowfish.BlowFish.Replace | src/runtime/kwl2kss/kwalletbackend/blowfish.cc:73-85 | each step of the schedule replaces the next two entries by the encipherment under the tables so far |
| Blowfish.BlowFish.Init | src/runtime/kwl2kss/kwalletbackend/blowfish.cc:46-101 | the tables become a function of the constants and the key alone, whatever they held before |
| Blowfish.BlowFish.NoRepeats | src/runtime/kwl2kss/kwalletbackend/blowfish.cc:87-96 | true exactly if no S-box holds a word twice |
| Blowfish.BlowFish.SetKey | src/runtime/kwl2kss/kwalletbackend/blowfish.cc:115-137 | accepted if and only if the bit length is in 1..448, a multiple of 8 and the S-boxes have no repeats; the tables are the published subkeys of the key even if it is then refused as weak, and unchanged if its length is |
| Blowfish.BlowFish.Encrypt | src/runtime/kwl2kss/kwalletbackend/blowfish.cc:150-171 | in place, every block of the buffer is enciphered and nothing behind it touched; -1 and no change without a key or for part of a block |
| Blowfish.BlowFish.Decrypt | src/runtime/kwl2kss/kwalletbackend/blowfish.cc:174-195 | the same for deciphering |
| Blowfish.BlowFish.Encipher | src/runtime/kwl2kss/kwalletbackend/blowfish.cc:218-236 | the loop over the halves computes the published encryption under the current tables |
| Blowfish.BlowFish.Decipher | src/runtime/kwl2kss/kwalletbackend/blowfish.cc:239-257 | and this one the published decryption |
| Cbc.CipherBlockChain.Encrypt | src/runtime/kwl2kss/kwalletbackend/cbc.cc:77-106 | register, mode and buffer after a call, on every way out of it, as `Encrypted` of those before |
| Cbc.CipherBlockChain.Decrypt | src/runtime/kwl2kss/kwalletbackend/cbc.cc:109-145 | the same for `Decrypted`, with the two registers exchanged |
| Cbc.CipherBlockChain.SetKey | src/runtime/kwl2kss/kwalletbackend/cbc.cc:45-50 | the result and the tables of the cipher; the chain is not touched |
| Chaining.EncryptedNeverDecrypts | src/runtime/kwl2kss/kwalletbackend/cbc.cc:109-115 | an object that has encrypted refuses every decryption and is not changed |
| Chaining.DecryptedNeverEncrypts | src/runtime/kwl2kss/kwalletbackend/cbc.cc:77-83 | and the other way round |
| Chaining.LinkInverts | src/runtime/kwl2kss/kwalletbackend/cbc.cc:77-145 | one link is undone if and only if the two registers agree as far as the buffer goes |
| Chaining.LinkUndone | src/runtime/kwl2kss/kwalletbackend/cbc.cc:77-145 | the same for any two objects, with refused calls and missing keys: a buffer longer than the register comes back as it is, a part of a block only under a register of zeros |
| Chaining.RunUndoneIff | src/runtime/kwl2kss/kwalletbackend/cbc.cc:77-145 | over every run of buffers of any lengths a second object gives all of them back if and only if every link agrees |
| Chaining.RunRoundTrip | src/runtime/kwl2kss/kwalletbackend/cbc.cc:77-145 | every sequence of buffers of whole blocks, none longer than the one before, comes back through a second object, whatever follows the ciphertexts in memory |
| Chaining.CallSucceedsIff | src/runtime/kwl2kss/kwalletbackend/cbc.cc:77-145 | a call returns the length if and only if the object is not used the other way, the buffer is not longer than the register, the key is there and the length is whole blocks, and -1 otherwise |
| Chaining.TailUntouched | src/runtime/kwl2kss/kwalletbackend/cbc.cc:77-145 | what follows the bytes to be processed is never changed |
| Chaining.RegisterHolds | src/runtime/kwl2kss/kwalletbackend/cbc.cc:77-106 | after every run of encryptions each byte of the register is that of the last ciphertext that reached so far |
| Chaining.RegisterAfterDecrypt | src/runtime/kwl2kss/kwalletbackend/cbc.cc:109-145 | after a decryption that is not refused the register is the beginning of its input, as long as it was |
| Chaining.BlockPerCallIsCbc | src/runtime/kwl2kss/kwalletbackend/cbc.cc:77-106 | fed one block per call it is CBC of section 6.2 of NIST SP 800-38A with a zero vector |
| Chaining.FirstCallIsBlockwise | src/runtime/kwl2kss/kwalletbackend/cbc.cc:77-145 | a single call on a large buffer enciphers every block on its own |
| PasswordHash.SegmentsTile | src/runtime/kwl2kss/kwalletbackend/kwalletbackend.cc:177-264 | the segments tile the password, no byte dropped or used twice |
| PasswordHash.ShortKey | src/runtime/kwl2kss/kwalletbackend/kwalletbackend.cc:177-194 | the key of up to sixteen bytes is two thousand digests one of the other |
| PasswordHash.KeyOfTwo | src/runtime/kwl2kss/kwalletbackend/kwalletbackend.cc:196-245 | the key of a password of two parts is the keys of the parts |
| PasswordHash.KeyOfThree | src/runtime/kwl2kss/kwalletbackend/kwalletbackend.cc:196-245 | of three parts, with sixteen bytes of the third |
| PasswordHash.KeyOfFour | src/runtime/kwl2kss/kwalletbackend/kwalletbackend.cc:196-264 | of four, with fourteen bytes of each, and the fourth part is all that is left |
| PasswordHash.IterateAdds | src/runtime/kwl2kss/kwalletbackend/kwalletbackend.cc:183-194 | hashing so many times and so many more is hashing as many times as that in all |
| PasswordHash.Stretch | src/runtime/kwl2kss/kwalletbackend/kwalletbackend.cc:183-194 | 2000 rounds of hashing, each on an object that is ready, and a fresh object at the end |
| PasswordHash.Password2Hash | src/runtime/kwl2kss/kwalletbackend/kwalletbackend.cc:177-264 | the key: the stretched segments, joined as the length of the password has it (20, 20+20, 20+20+16 or 14+14+14+14 bytes) |
| WalletBackend.PasswordKeysFit | src/runtime/kwl2kss/kwalletbackend/kwalletbackend.cc:177-335 | every password gives a key whose length `openPreHashed` and `setKey` accept |
| QtStream.StringRoundTrip | src/runtime/kwl2kss/kwalletbackend/kwalletbackend.cc:571-588 | a string is read back in front of any rest |
| QtStream.BytesRoundTrip | src/runtime/kwl2kss/kwalletbackend/kwalletbackend.cc:583 | a byte array is read back in front of any rest |
| QtStream.NullIsEmpty | src/runtime/kwl2kss/kwalletbackend/kwalletbackend.cc:494-519 | a null array or string is read as an empty one and takes nothing more |
| QtStream.CutIsEmpty | src/runtime/kwl2kss/kwalletbackend/kwalletbackend.cc:494-519 | what is announced and not there is read as nothing |
| QtStream.I32RoundTrip | src/runtime/kwl2kss/kwalletbackend/kwalletbackend.cc:582 | a signed number is read back in front of any rest |
| WalletFormat.EntriesRoundTrip | src/runtime/kwl2kss/kwalletbackend/kwalletbackend.cc:494-519 | entries of known types are read back in front of any rest |
| WalletFormat.FoldersRoundTrip | src/runtime/kwl2kss/kwalletbackend/kwalletbackend.cc:484-520 | the folder parser undoes the printer |
| WalletFormat.CollectFoldersIsRefiled | src/runtime/kwl2kss/kwalletbackend/kwalletbackend.cc:484-520 | in whatever order the maps were iterated, folders of the same name are replaced and the others left |
| WalletFormat.ReadFoldersKnown | src/runtime/kwl2kss/kwalletbackend/kwalletbackend.cc:503-511 | whatever the bytes, no entry of unknown type is ever built |
| WalletFormat.KnownEntryRead | src/runtime/kwl2kss/kwalletbackend/kwalletbackend.cc:494-519 | a printed entry of type 1, 2 or 3 is read whole and filed under its key |
| WalletFormat.UnknownEntryRead | src/runtime/kwl2kss/kwalletbackend/kwalletbackend.cc:503-511 | a printed entry of an unknown type is read as its key and type only, and the bytes of its value are read on as the next entry |
| WalletFormat.DataRoundTrip | src/runtime/kwl2kss/kwalletbackend/kwalletbackend.cc:484-588 | the data of a wallet is read back as the same folders, keys, types and values if and only if every type is known; an entry then carries the name it was filed under |
| WalletFile.DigestsRoundTrip | src/runtime/kwl2kss/kwalletbackend/kwalletbackend.cc:393-408 | the digest block is read back as the index of the folders |
| WalletFile.Payload | src/runtime/kwl2kss/kwalletbackend/kwalletbackend.cc:603-643 | the length of the payload: 32 bytes, the data and 1 to 8 bytes of filler, a whole number of blocks |
| WalletFile.SizeFieldDecodes | src/runtime/kwl2kss/kwalletbackend/kwalletbackend.cc:442-451 | shifting and masking signed characters gives the big-endian number |
| WalletFile.PayloadParts | src/runtime/kwl2kss/kwalletbackend/kwalletbackend.cc:624-643 | random block, size field, data, filler and digest are where the reader looks for them |
| WalletFile.PayloadRoundTrip | src/runtime/kwl2kss/kwalletbackend/kwalletbackend.cc:436-520 | a payload is accepted and its data parsed, whatever the random bytes |
| WalletFile.ImageParts | src/runtime/kwl2kss/kwalletbackend/kwalletbackend.cc:540-663 | magic, version, folder count, digests and encrypted payload follow each other, at least 60 bytes in all |
| WalletFile.ReopenSynced | src/runtime/kwl2kss/kwalletbackend/kwalletbackend.cc:337-676 | opening what `sync` wrote: 0 or -43 exactly by the number of folders, the index of the file, and the same contents if and only if every type is known |
| WalletLayout.HeaderCodes | src/runtime/kwl2kss/kwalletbackend/kwalletbackend.cc:361-392 | -3, -4, -42 and -43 for exactly the first of magic, version, cipher and hash, and number of folders that is wrong |
| WalletLayout.WholeOpens | src/runtime/kwl2kss/kwalletbackend/kwalletbackend.cc:393-434 | with a whole digest block: the index is that block, -5 if and only if the rest is not whole blocks, then -6 if and only if the key is not usable |
| WalletLayout.PayloadOpens | src/runtime/kwl2kss/kwalletbackend/kwalletbackend.cc:436-520 | -9 if and only if the size does not fit the payload, then -8 if and only if its last twenty bytes are not the SHA-1 of the data, else the folders of the data |
| WalletLayout.ReadIsPrinted | src/runtime/kwl2kss/kwalletbackend/kwalletbackend.cc:393-408 | a digest block with something behind it was whole, and nothing read from it was made up |
| WalletLayout.CutFolder | src/runtime/kwl2kss/kwalletbackend/kwalletbackend.cc:393-408 | a folder whose number of keys is cut off at the end of the file is taken to have none |
| WalletLayout.MissingFoldersRefused | src/runtime/kwl2kss/kwalletbackend/kwalletbackend.cc:393-397 | a file that ends where a folder is due gives -43, and its index so far stays |
| WalletLayout.MadeOfOpens | src/runtime/kwl2kss/kwalletbackend/kwalletbackend.cc:353-525 | a file made so opens with code 0, the index of its block and the folders of its data over those in memory |
| WalletLayout.AcceptedIff | src/runtime/kwl2kss/kwalletbackend/kwalletbackend.cc:353-525 | a file opens with code 0 if and only if it is made of header, count, whole digest block and a rest that a usable key decrypts to size, data and the SHA-1 of the data |
| WalletIndex.CreateFolderExact | src/runtime/kwl2kss/kwalletbackend/kwalletbackend.cc:754-766 | creating a folder keeps the index exact |
| WalletIndex.RemoveFolderExact | src/runtime/kwl2kss/kwalletbackend/kwalletbackend.cc:850-875 | removing one does too |
| WalletIndex.RemoveEntryExact | src/runtime/kwl2kss/kwalletbackend/kwalletbackend.cc:823-847 | and removing an entry, though its digest may be in the list more than once |
| WalletIndex.WriteEntryExact | src/runtime/kwl2kss/kwalletbackend/kwalletbackend.cc:797-815 | writing keeps it exact if and only if the current folder exists |
| WalletIndex.RenameEntryExact | src/runtime/kwl2kss/kwalletbackend/kwalletbackend.cc:769-794 | renaming likewise, even when it fails |
| WalletIndex.ReadEntryListExact | src/runtime/kwl2kss/kwalletbackend/kwalletbackend.cc:735-751 | listing the entries keeps it exact if and only if the current folder exists |
| WalletIndex.CloseExact | src/runtime/kwl2kss/kwalletbackend/kwalletbackend.cc:679-702 | after closing it is exact if and only if it knew no folder before |
| WalletIndex.OpenNewExact | src/runtime/kwl2kss/kwalletbackend/kwalletbackend.cc:342-351 | after creating a wallet it is exact if and only if it was before, and without folders if and only if it knew none of the names |
| WalletIndex.ExactIffAgrees | src/runtime/kwl2kss/kwalletbackend/kwalletbackend.cc:878-895 | an index answers rightly if and only if, as a digest block, it has the digests of the folders and their keys and of no other name |
| WalletIndex.OpenFileExact | src/runtime/kwl2kss/kwalletbackend/kwalletbackend.cc:353-525 | after opening a file, by what the file has in front of its payload: no wallet header, exact if and only if it was before; too many folders, if and only if no name is a folder in memory; else if and only if the digest block, read without the key, agrees with the folders in memory and, if the key opens the payload, those in the file laid over them; refused on a wallet without folders, if and only if the block has none of the names |
| WalletIndex.OldIndexForgotten | src/runtime/kwl2kss/kwalletbackend/kwalletbackend.cc:384-525 | behind a wallet header, opening gives the same wallet whatever index was there before, and the same index whatever the key |
| WalletFile.LoadedIs | src/runtime/kwl2kss/kwalletbackend/kwalletbackend.cc:353-525 | opening any file into any memory: code, and index from the digest block alone, and the folders of the file laid over those in memory, which key and payload decide and the memory does not |
| WalletFile.ReadFoldersInto | src/runtime/kwl2kss/kwalletbackend/kwalletbackend.cc:484-520 | reading folders one by one into memory is laying the folders read over it |
| WalletFile.ImageFront | src/runtime/kwl2kss/kwalletbackend/kwalletbackend.cc:353-408 | what `sync` wrote in front of the payload is read without the key as the index of the listing, or as too many folders |
| WalletIndex.IndexIsExactOverRuns | src/runtime/kwl2kss/kwalletbackend/kwalletbackend.cc:337-895 | over any run, closings, creations, listings and openings of any files included, both queries answer rightly in every open state, or in every state at all, if and only if they do in the first that counts and every step meets its condition on the wallet before and the file |
| WalletIndex.NewObjectExact | src/runtime/kwl2kss/kwalletbackend/kwalletbackend.cc:72-81 | the index of a new object is exact, as it has no folders |
| WalletIndex.ClosedFolderLingers | src/runtime/kwl2kss/kwalletbackend/kwalletbackend.cc:342-351 | a folder made before a close is still reported by the wallet created after it |
| WalletIndex.MissingFolderAppears | src/runtime/kwl2kss/kwalletbackend/kwalletbackend.cc:735-815 | writing, renaming and listing where the current folder is missing make it, unknown to the index |
| WalletIndex.DigestsUnchecked | src/runtime/kwl2kss/kwalletbackend/kwalletbackend.cc:384-525 | what is read from a file does not depend on what the digests of names are |
| WalletIndex.ForeignDigestsOpen | src/runtime/kwl2kss/kwalletbackend/kwalletbackend.cc:384-525 | a file with the digests of other names opens with code 0 and all its folders; its index is exact if and only if a name has the digest of some folder just when it is a folder, and the digest of some key of the last folder with its folder's digest just when it is a key |
| WalletIndex.ListingExact | src/runtime/kwl2kss/kwalletbackend/kwalletbackend.cc:393-408 | the same for the index of any listing and any wallet with those folders and keys |
| WalletIndex.SyncedFileAgrees | src/runtime/kwl2kss/kwalletbackend/kwalletbackend.cc:337-676 | a file that `sync` wrote, opened with its key where there are no folders, always meets the condition of the runs |
| WalletIndex.QueriesAnswerForFile | src/runtime/kwl2kss/kwalletbackend/kwalletbackend.cc:384-525 | after any attempt to open a file that `sync` wrote, with any key, both queries answer for the wallet in the file |
| WalletIndex.WrongKeyLeavesIndex | src/runtime/kwl2kss/kwalletbackend/kwalletbackend.cc:384-472 | a refused key leaves a closed wallet with the index of the file, wrong for one without folders as soon as a name is a folder in the file; no key is always refused |
| WalletIndex.OpenedWalletExact | src/runtime/kwl2kss/kwalletbackend/kwalletbackend.cc:384-408 | the index of a wallet opened from a file that `sync` wrote is exact |
| WalletReading.StepGives | src/runtime/kwl2kss/kwalletbackend/kwalletbackend.cc:337-875 | which folders there are and what is read under every key after each operation, told from before it without maps |
| WalletReading.RunGives | src/runtime/kwl2kss/kwalletbackend/kwalletbackend.cc:337-875 | the same after every run of operations |
| WalletReading.WrittenIsRead | src/runtime/kwl2kss/kwalletbackend/kwalletbackend.cc:797-815 | what is written is read, also over an older entry, and nothing else changes |
| WalletReading.LastWriteIsRead | src/runtime/kwl2kss/kwalletbackend/kwalletbackend.cc:724-875 | over runs, reading gives the last entry written unless it was removed, renamed, closed or read anew since |
| WalletReading.Renamed | src/runtime/kwl2kss/kwalletbackend/kwalletbackend.cc:769-794 | a renamed entry is read as it was, inner name included, under its new key, and nothing under the old |
| WalletReading.ReturnValues | src/runtime/kwl2kss/kwalletbackend/kwalletbackend.cc:754-875 | what creating, removing and renaming return |
| WalletBackend.Backend.CreateFolder | src/runtime/kwl2kss/kwalletbackend/kwalletbackend.cc:754-766 | folders and index after the call, and that nothing else changes |
| WalletBackend.Backend.RenameEntry | src/runtime/kwl2kss/kwalletbackend/kwalletbackend.cc:769-794 | the same; the entry keeps its own name, and the current folder comes to exist even if the call fails |
| WalletBackend.Backend.ReadEntry | src/runtime/kwl2kss/kwalletbackend/kwalletbackend.cc:724-732 | the entry filed under the key in the current folder, if the wallet is open and has it |
| WalletBackend.Backend.ReadEntryList | src/runtime/kwl2kss/kwalletbackend/kwalletbackend.cc:735-751 | the entries of the current folder whose keys match, each once, and the folder is there afterwards; nothing on a closed wallet |
| WalletBackend.MatchingHolds | src/runtime/kwl2kss/kwalletbackend/kwalletbackend.cc:742-749 | an entry is in the list if and only if a listed key of its matches, as often as there are such keys |
| WalletBackend.Backend.WriteEntry | src/runtime/kwl2kss/kwalletbackend/kwalletbackend.cc:797-815 | the same; nothing on a closed wallet |
| WalletBackend.Backend.RemoveEntry | src/runtime/kwl2kss/kwalletbackend/kwalletbackend.cc:823-847 | the same |
| WalletBackend.Backend.RemoveFolder | src/runtime/kwl2kss/kwalletbackend/kwalletbackend.cc:850-875 | the same; the current folder is left if it is the one removed |
| WalletBackend.Backend.FolderDoesNotExist | src/runtime/kwl2kss/kwalletbackend/kwalletbackend.cc:878-882 | whether the digest is missing from the index |
| WalletBackend.Backend.EntryDoesNotExist | src/runtime/kwl2kss/kwalletbackend/kwalletbackend.cc:885-895 | whether the folder or the key is missing from the index |
| WalletBackend.Backend.PutFolders | src/runtime/kwl2kss/kwalletbackend/kwalletbackend.cc:556-589 | both streams list the same folders and entries in the same order, each once |
| WalletBackend.Backend.FillPayload | src/runtime/kwl2kss/kwalletbackend/kwalletbackend.cc:603-643 | the five loops tile the buffer: random block, size, data, filler, digest |
| WalletBackend.Backend.EncryptPayload | src/runtime/kwl2kss/kwalletbackend/kwalletbackend.cc:649-660 | the payload enciphered block by block, if the key is usable |
| WalletBackend.Backend.Sync | src/runtime/kwl2kss/kwalletbackend/kwalletbackend.cc:528-676 | the return code for every failure, the old file after any of them, and the image of the wallet otherwise |
| WalletBackend.SyncCodes | src/runtime/kwl2kss/kwalletbackend/kwalletbackend.cc:528-676 | exactly when `sync` returns each of its codes |
| WalletBackend.Backend.ReadDigestBlock | src/runtime/kwl2kss/kwalletbackend/kwalletbackend.cc:384-408 | the index and the rest of the file |
| WalletBackend.Backend.LoadFolders | src/runtime/kwl2kss/kwalletbackend/kwalletbackend.cc:484-520 | the folders parsed to the end of the data |
| WalletBackend.Backend.CompareDigest | src/runtime/kwl2kss/kwalletbackend/kwalletbackend.cc:464-472 | equal exactly if the last 20 bytes are the digest |
| WalletBackend.Backend.OpenPayload | src/runtime/kwl2kss/kwalletbackend/kwalletbackend.cc:436-520 | size check, digest check and folders, with the code of whichever fails |
| WalletBackend.Backend.ReadFile | src/runtime/kwl2kss/kwalletbackend/kwalletbackend.cc:353-525 | code, index, folders, key and open flag after reading a file of any content |
| WalletBackend.Backend.OpenInternal | src/runtime/kwl2kss/kwalletbackend/kwalletbackend.cc:337-525 | the same with the cases of a missing, short or unreadable file: code, wallet, key and the file left behind, which is the image of the wallet where the saving works |
| WalletBackend.Backend.SetPassword | src/runtime/kwl2kss/kwalletbackend/kwalletbackend.cc:897-903 | the key becomes that of the password |
| WalletBackend.Backend.Open | src/runtime/kwl2kss/kwalletbackend/kwalletbackend.cc:312-319 | refuses an open wallet; otherwise the same under the key of the password |
| WalletBackend.Backend.OpenPreHashed | src/runtime/kwl2kss/kwalletbackend/kwalletbackend.cc:321-335 | refuses an open wallet and a key of the wrong length, with nothing changed; otherwise the same under the key given |
| WalletBackend.Backend.Close | src/runtime/kwl2kss/kwalletbackend/kwalletbackend.cc:679-702 | a failed save keeps everything; otherwise folders and key are gone, the index stays and the file is the image of the wallet if it was saved |
| WalletBackend.SaveAndReopen | src/runtime/kwl2kss/kwalletbackend/kwalletbackend.cc:321-676 | saving and opening in a new object by the key: code -42 if its length is not one of the three, else code 0, the same contents and an exact index |
| WalletBackend.SaveUnderPassword | src/runtime/kwl2kss/kwalletbackend/kwalletbackend.cc:312-676 | saving under a password and opening with it in a new object: code 0, the same contents and an exact index |
| ChunkStream.WriterLeaves | src/runtime/ksecretsserviced/backend/ksecret/ksecretdevice.h:143-185 | what a run of writes and the close leave in the file |
| ChunkStream.InsideStep | src/runtime/ksecretsserviced/backend/ksecret/ksecretdevice.h:117-140 | a read inside a chunk is served from it and ends inside it or at its end |
| ChunkStream.BoundaryRefills | src/runtime/ksecretsserviced/backend/ksecret/ksecretdevice.h:120-130 | at a boundary the next chunk holds at least what is asked for |
| ChunkStream.Replay | src/runtime/ksecretsserviced/backend/ksecret/ksecretdevice.h:117-185 | reads of the sizes written deliver what was written, never past a chunk and never dropping bytes, for any chunk cipher that can be undone |
| ChunkStream.ReadConservesBytes | src/runtime/ksecretsserviced/backend/ksecret/ksecretdevice.h:120-134 | a refill loses bytes if and only if the chunk had some left, and as many as it had |
| ChunkStream.ShortRead | src/runtime/ksecretsserviced/backend/ksecret/ksecretdevice.h:117-137 | a read that a new chunk has not enough for returns all of the chunk, and every read after it fetches another |
| ChunkStream.ChunksOfRun | src/runtime/ksecretsserviced/backend/ksecret/ksecretdevice.h:143-181 | the chunks of a run hold what was written, in order, with padding behind the last at most; each has 128 bytes or more, and less than a write more, the last at least sixteen |
| ChunkStream.PaddedIs | src/runtime/ksecretsserviced/backend/ksecret/ksecretdevice.h:170-175 | only less than sixteen bytes are padded, behind them, and to sixteen at least |
| KSecretDevice.Device.WriteData | src/runtime/ksecretsserviced/backend/ksecret/ksecretdevice.h:143-165 | result, buffer and file after a call, for any result of the base device: its result is passed on where data goes straight through, and ignored for a chunk written by calls from inside, when the length of the data is returned |
| KSecretDevice.ChunkArrivesIff | src/runtime/ksecretsserviced/backend/ksecret/ksecretdevice.h:143-165 | a chunk is in the file if and only if the base device took its length and all of it, and nothing of it follows a length cut short; the buffer is emptied either way |
| KSecretDevice.StepsOnSound | src/runtime/ksecretsserviced/backend/ksecret/ksecretdevice.h:143-181 | on a base device that takes all, writing and closing are the steps that reading undoes |
| KSecretDevice.Device.ReadData | src/runtime/ksecretsserviced/backend/ksecret/ksecretdevice.h:117-140 | count, bytes and state after a call, with the chunk fetched by calls from inside |
| KSecretDevice.Device.Close | src/runtime/ksecretsserviced/backend/ksecret/ksecretdevice.h:168-181 | what waits is padded to the cipher's minimum and written as far as the base device takes it, or nothing is |
| KSecretDevice.WriteThenRead | src/runtime/ksecretsserviced/backend/ksecret/ksecretdevice.h:117-185 | a second device returns every piece that the first was given, if the base device took all |
| LookupIndex.ScanAdds | src/runtime/ksecretsserviced/backend/ksecret/ksecretcollection.cpp:152-182 | one query attribute adds, once each, the items that accept its value among the pairs from its key on |
| LookupIndex.SearchFinds | src/runtime/ksecretsserviced/backend/ksecret/ksecretcollection.cpp:140-184 | the whole search finds the items hit by some query attribute, each once |
| LookupIndex.SearchIsScan | src/runtime/ksecretsserviced/backend/ksecret/ksecretcollection.cpp:140-209 | for plain values it returns exactly the live items sharing an attribute with the query, whatever order the hash iterates in |
| LookupIndex.SearchIsScanOverRuns | src/runtime/ksecretsserviced/backend/ksecret/ksecretcollection.cpp:140-209 | and that in every state reached from a fresh collection by creating, changing and deleting items |
| LookupIndex.SearchFindsMatches | src/runtime/ksecretsserviced/backend/ksecret/ksecretitem.cpp:188-199 | it finds all that `matches` accepts if some query value accepts itself, and nothing otherwise |
| LookupIndex.OneValueFinds | src/runtime/ksecretsserviced/backend/ksecret/ksecretcollection.cpp:140-184 | what a query for one attribute finds, for empty values, patterns and plain values, among the items behind the first pair with its key |
| LookupIndex.IsRegexpIff | src/runtime/ksecretsserviced/backend/ksecret/ksecretcollection.cpp:166-170 | a pattern begins with the word and the colon, each letter small or capital |
| LookupIndex.MatchesIff | src/runtime/ksecretsserviced/backend/ksecret/ksecretitem.cpp:188-199 | an item matches if and only if the query is part of its attributes |
| LookupIndex.ExistingIffDetectable | src/runtime/ksecretsserviced/backend/ksecret/ksecretcollection.cpp:270-290 | creating finds an item of equal attributes if and only if there is one and some value of them accepts itself |
| LookupIndex.StepAgrees | src/runtime/ksecretsserviced/backend/ksecret/ksecretcollection.cpp:257-391 | every operation keeps the pairs covering the items and naming live ones only |
| LookupIndex.StepUnique | src/runtime/ksecretsserviced/backend/ksecret/ksecretcollection.cpp:257-364 | an operation keeps the items unique if and only if it does not change attributes to those of another |
| LookupIndex.UniqueOverRuns | src/runtime/ksecretsserviced/backend/ksecret/ksecretcollection.cpp:257-364 | over any run they are unique after every step if and only if no step does that |
| LookupIndex.CreationsStayUnique | src/runtime/ksecretsserviced/backend/ksecret/ksecretcollection.cpp:257-364 | creations and deletions alone never make two equal items |
| LookupIndex.CreationCounts | src/runtime/ksecretsserviced/backend/ksecret/ksecretcollection.cpp:257-323 | the number of items stays if an equal one was found, with nothing changed unless replacing, and grows by one otherwise; the pairs grow by one for every attribute unless nothing is changed |
| LookupIndex.BarePatternIsDuplicated | src/runtime/ksecretsserviced/backend/ksecret/ksecretcollection.cpp:166-170 | an item whose only value is "regexp:" is created again each time |
| KSecretCollection.Collection.SearchKey | src/runtime/ksecretsserviced/backend/ksecret/ksecretcollection.cpp:152-182 | the loop from the first pair with the key to the end of the hash |
| KSecretCollection.Collection.SearchItems | src/runtime/ksecretsserviced/backend/ksecret/ksecretcollection.cpp:140-209 | the search function of the lemmas, or the error of a locked collection |
| KSecretCollection.Collection.CreateItem | src/runtime/ksecretsserviced/backend/ksecret/ksecretcollection.cpp:257-323 | locked, already existing, replaced or created: result, fields of the item, items, index and that no other item changes |
| KSecretCollection.Collection.ErasePairs | src/runtime/ksecretsserviced/backend/ksecret/ksecretcollection.cpp:341-349 | all pairs of an item are gone and the others are in their order |
| KSecretCollection.Collection.SlotItemDeleted | src/runtime/ksecretsserviced/backend/ksecret/ksecretcollection.cpp:336-364 | item and pairs are gone |
| KSecretCollection.Collection.ChangeAttributeHashes | src/runtime/ksecretsserviced/backend/ksecret/ksecretcollection.cpp:366-374 | a pair for every attribute is added and none removed |
| KSecretCollection.Item.SetAttributes | src/runtime/ksecretsserviced/backend/ksecret/ksecretitem.cpp:127-137 | the attributes are replaced and pairs added, or the error of a locked collection |
| KSecretCollection.Item.DeleteItem | src/runtime/ksecretsserviced/backend/ksecret/ksecretitem.cpp:176-181 | the collection drops the item and its pairs |
| KSecretCollection.Item.Matches | src/runtime/ksecretsserviced/backend/ksecret/ksecretitem.cpp:188-199 | whether every query attribute is there with its value |
| TextCodec.NumberRoundTrip | src/runtime/ksecrets_store/ksecrets_data.cpp:120-136 | a size in front of something else than a digit is read back |
| TextCodec.NumberBeforeTail | src/runtime/ksecrets_store/ksecrets_data.cpp:166-178 | in front of random bytes it is read back if and only if they do not begin with a digit, or it and all those digits are zero |
| TextCodec.StringRoundTrip | src/runtime/ksecrets_store/crypt_buffer.cpp:182-201 | a counted string is read back whatever bytes it holds and whatever follows |
| TextCodec.CutString | src/runtime/ksecrets_store/crypt_buffer.cpp:188-201 | a string that ends too early keeps blanks behind what there was, and the stream fails |
| TextCodec.DirectoryRoundTrip | src/runtime/ksecrets_store/ksecrets_data.cpp:120-145 | a directory that is not empty is read back whatever tail follows it |
| TextCodec.EmptyDirectoryRoundTrip | src/runtime/ksecrets_store/ksecrets_data.cpp:120-145 | an empty one if and only if its length survives the tail |
| TextCodec.NoTextDirectory | src/runtime/ksecrets_store/ksecrets_data.cpp:131-145 | no text at all is read as an empty directory if the count happens to be zero before, and fails otherwise |
| TextCodec.NothingToRead | src/runtime/ksecrets_store/ksecrets_data.cpp:131-145 | where only blanks are left a number stays as it was |
| TextCodec.BlanksSkipped | src/runtime/ksecrets_store/ksecrets_data.cpp:120-178 | blanks and line ends of six kinds are skipped in front of a number, and nothing else |
| TextCodec.SignedNumber | src/runtime/ksecrets_store/ksecrets_data.cpp:120-178 | a number behind a plus sign is read as it is, behind a minus sign as its negative modulo 2^64 |
| TextCodec.UnluckyTail | src/runtime/ksecrets_store/ksecrets_data.cpp:120-145 | an empty directory cannot be read where its tail begins with a 1 and no digit, sign or blank after it |
| TextCodec.CollectionRoundTrip | src/runtime/ksecrets_store/ksecrets_data.cpp:166-178 | the name of a collection is always read back, the number of items if and only if it survives the tail |
| TextCodec.WrongSeparatorIsAccepted | src/runtime/ksecrets_store/crypt_buffer.cpp:191-196 | another character than the colon leaves the string as it was and the stream good behind it, whatever the length was |
| CryptBuffer.CryptBuffer.Grow | src/runtime/ksecrets_store/crypt_buffer.cpp:153-173 | one more block: the old bytes kept, the new ones random, the put area at the old end |
| CryptBuffer.CryptBuffer.Overflow | src/runtime/ksecrets_store/crypt_buffer.cpp:148-180 | the byte follows the text and the blocks stay whole |
| CryptBuffer.CryptBuffer.Put | src/runtime/ksecrets_store/crypt_buffer.cpp:148-186 | n bytes put give whole blocks of the next multiple of 8, those bytes first and random ones behind |
| CryptBuffer.CryptBuffer.Encrypt | src/runtime/ksecrets_store/crypt_buffer.cpp:113-132 | the encrypted blocks; the length stays, so that a second text would begin behind it |
| CryptBuffer.RefusedIsNoise | src/runtime/ksecrets_store/crypt_buffer.cpp:113-132 | what is saved when the engine refuses depends on nothing of the text but its length |
| CryptBuffer.CryptBuffer.Write | src/runtime/ksecrets_store/crypt_buffer.cpp:83-92 | the length and the encrypted blocks, or random ones if the engine refuses, reach the file and the authentication code, unless the disk is too full |
| CryptBuffer.CryptBuffer.Read | src/runtime/ksecrets_store/crypt_buffer.cpp:57-81 | a length and that many bytes are taken if they are there |
| CryptBuffer.CryptBuffer.Underflow | src/runtime/ksecrets_store/crypt_buffer.cpp:134-146 | the next byte of what decrypts, decrypting at the first call |
| CryptBuffer.CryptBuffer.Drain | src/runtime/ksecrets_store/crypt_buffer.cpp:94-146 | a stream over the buffer delivers exactly the decrypted bytes, or none |
| HostSize.SizeInverse | src/runtime/ksecrets_store/crypt_buffer.cpp:61-85 | reading a size undoes writing it, and only that |
| HostSize.FrameInverse | src/runtime/ksecrets_store/crypt_buffer.cpp:57-92 | reading bytes behind their number undoes writing them, and only that |
| SecretsDevice.MAC.Reset | src/runtime/ksecrets_store/crypting_engine.cpp:318-352 | succeeds if and only if the handle is there and the key has been or can be found, and then forgets what was fed |
| SecretsDevice.MAC.Update | src/runtime/ksecrets_store/crypting_engine.cpp:356-373 | feeds the bytes, ignores them once stopped, fails before the first reset |
| SecretsDevice.MAC.Read | src/runtime/ksecrets_store/crypting_engine.cpp:375-399 | the code of what was fed |
| SecretsDevice.MAC.Verify | src/runtime/ksecrets_store/crypting_engine.cpp:401-415 | whether a code is accepted for what was fed |
| SecretsDevice.Device.Read | src/runtime/ksecrets_store/ksecrets_file.cpp:404-415 | the next bytes, fed to the code unless stopped; a short read fails, and every read after it |
| SecretsDevice.Device.Write | src/runtime/ksecrets_store/ksecrets_file.cpp:385-402 | the bytes are written and fed, or the disk is too full |
| SecretsImage.ReadsAllSealed | src/runtime/ksecrets_store/ksecrets_file.cpp:254-275 | entities written one after the other are read back in order |
| SecretsImage.ReadIsSealed | src/runtime/ksecrets_store/ksecrets_file.cpp:254-317 | whatever was read as entities is the encoding of entities that open to them |
| SecretsImage.UnknownTypeAborts | src/runtime/ksecrets_store/ksecrets_file.cpp:301-317 | a type that is none of the four ends the program, behind any entities that can be read |
| SecretsImage.UnreadableTypeFails | src/runtime/ksecrets_store/ksecrets_file.cpp:254-317 | an item or an end mark is an error instead, as neither can be read |
| SecretsImage.HeaderErrors | src/runtime/ksecrets_store/ksecrets_file.cpp:325-357 | exactly when a header is too short, has another magic, or is good, and that a good one without a count is an error of the entities |
| SecretsImage.AcceptedIffImage | src/runtime/ksecrets_store/ksecrets_file.cpp:325-357 | a file is accepted with a list of entities if and only if it is a header with the magic, their number, entities that open to them, and a code accepted for exactly these bytes |
| SecretsImage.UnsealSeal | src/runtime/ksecrets_store/ksecrets_data.cpp:59-97 | an entity saved and read is the same if and only if no number ran into the random bytes |
| SecretsImage.OpenSaved | src/runtime/ksecrets_store/ksecrets_file.cpp:125-357 | a saved file opens to the very entities that were saved if and only if that holds for each |
| SecretsImage.ImageOpensIff | src/runtime/ksecrets_store/ksecrets_file.cpp:240-357 | a saved file opens at all if and only if each of its entities can be read, whatever to |
| SecretsImage.SavedOpensIff | src/runtime/ksecrets_store/ksecrets_file.cpp:125-357 | what is saved with a ready engine opens if and only if every empty directory in it can be read with its random tail |
| SecretsImage.KindsInOrder | src/runtime/ksecrets_store/ksecrets_file.cpp:301-317 | an opened file has the types of its entities in order |
| SecretsFile.SecretsFile.DeserializeDirectory | src/runtime/ksecrets_store/ksecrets_data.cpp:131-145 | the loop reads as many entries as announced or fails at the first bad one |
| SecretsFile.SecretsFile.ReadNextEntity | src/runtime/ksecrets_store/ksecrets_file.cpp:301-317 | the next entity, kept unless only checking; all bytes taken were fed to the code |
| SecretsFile.SecretsFile.ReadCounted | src/runtime/ksecrets_store/ksecrets_file.cpp:269-274 | the loop over the entities stops at the first failure |
| SecretsFile.SecretsFile.ReadEntities | src/runtime/ksecrets_store/ksecrets_file.cpp:254-275 | the count and the entities, all of them fed to the code |
| SecretsFile.SecretsFile.ReadCheckMac | src/runtime/ksecrets_store/ksecrets_file.cpp:277-299 | accepted if and only if a code follows that is accepted for what was fed before it |
| SecretsFile.SecretsFile.OpenAndCheck | src/runtime/ksecrets_store/ksecrets_file.cpp:325-357 | the status for every way out, that of the bytes in the end, and the entities if not only checking |
| SecretsFile.SecretsFile.Serialize | src/runtime/ksecrets_store/ksecrets_data.cpp:120-202 | the text of a directory or a collection in an empty buffer; items and end marks fail |
| SecretsFile.SecretsFile.SaveEntity | src/runtime/ksecrets_store/ksecrets_file.cpp:213-225 | type, length and encrypted text are written and fed, or it cannot be serialized or the disk is too full |
| SecretsFile.SecretsFile.SaveEntities | src/runtime/ksecrets_store/ksecrets_file.cpp:145-150 | all of them in order, or failure |
| SecretsFile.SecretsFile.SaveMac | src/runtime/ksecrets_store/ksecrets_file.cpp:197-211 | the code of what was fed, behind its length, and nothing more fed |
| SecretsFile.SecretsFile.WriteTemp | src/runtime/ksecrets_store/ksecrets_file.cpp:125-195 | succeeds if and only if file and key are there, every entity can be serialized and the disk takes it all; the temporary file is then the image |
| SecretsFile.SecretsFile.BackupAndReplace | src/runtime/ksecrets_store/ksecrets_file.cpp:227-243 | exactly when it succeeds, and path, backup and temporary file after either rename fails or both succeed |
| SecretsFile.SecretsFile.Save | src/runtime/ksecrets_store/ksecrets_file.cpp:125-252 | exactly when a save reports success; path, backup and temporary file on every way out, as a run of the steps leaves them; a path that opened leaves path or backup opening, and after success the path opens |
| SecretsFile.Create | src/runtime/ksecrets_store/ksecrets_file.cpp:67-123 | the code returned for every failure, with the `errno` of a write that failed or was cut short, and that the file is as much of the image of an empty store as the disk takes |
| SecretsFile.CreationReported | src/runtime/ksecrets_store/ksecrets_file.cpp:95-106 | the header and the count are reported good if and only if both were written, or one was cut short while `errno` was 0 |
| SecretsFile.CreatedOpensIff | src/runtime/ksecrets_store/ksecrets_file.cpp:67-123 | a created file opens, as an empty store, if and only if the disk took all of it |
| SaveSteps.StepSafe | src/runtime/ksecrets_store/ksecrets_file.cpp:227-252 | a step keeps the last image if and only if it does not back up another file |
| SaveSteps.SafeIffCareful | src/runtime/ksecrets_store/ksecrets_file.cpp:125-252 | the last image is there at every moment of a run if and only if no step does |
| SaveSteps.SavesAreSafe | src/runtime/ksecrets_store/ksecrets_file.cpp:125-252 | runs of saves alone, failing or stopped anywhere, never leave part of a file at the path and never lose the last image |
| SaveSteps.StepRecoverable | src/runtime/ksecrets_store/ksecrets_file.cpp:227-252 | a step leaves path or backup opening if and only if it does not back up a file that does not open |
| SaveSteps.RecoverableIffGoodBackups | src/runtime/ksecrets_store/ksecrets_file.cpp:125-252 | path or backup opens at every moment of a run if and only if no step does |
| SaveSteps.GoodImagesAreRecoverable | src/runtime/ksecrets_store/ksecrets_file.cpp:125-252 | one of them always opens in runs that save and set up nothing that does not |
| SaveSteps.TwoBadSavesLeaveNone | src/runtime/ksecrets_store/ksecrets_file.cpp:240-249 | two saves whose images do not open leave no file that opens, with the last image in place |
| SaveSteps.SaveReplaces | src/runtime/ksecrets_store/ksecrets_file.cpp:125-252 | a save that ends leaves its image in place and the one before in the backup |
| SaveSteps.StuckWithoutFile | src/runtime/ksecrets_store/ksecrets_file.cpp:227-237 | once the file is away no later save brings one back |
| SaveSteps.RecreatedStoreLosesImage | src/runtime/ksecrets_store/ksecrets_store.cpp:63-94 | setting the store up anew then and saving once more loses the last image |

## Left out

- Blowfish constants: any tables of the right sizes stand for them; the big-endian word order and `setKey` on a bit length that the key buffer does not have are not modelled.
- Sha1.SHA1.Hash: returns the twenty bytes instead of a pointer into the object's buffer, so that a digest read after a later call is not modelled; the other buffer bytes are.
- Cbc.CipherBlockChain.Decrypt: requires a buffer at least as long as the register, because the code copies a whole register's length from it; a chain without a cipher is not modelled.
- PasswordHash.Password2Hash: overwriting of memory, and the length of the password beyond what a C++ int holds, are not modelled.
- WalletBackend.Backend.RemoveEntry: requires the current folder of an open wallet to be there, because the code looks into it before checking.
- WalletBackend.Backend.OpenInternal: is called on a closed wallet only, as by both of its callers.
- WalletBackend.Backend.ReadFile: the code -7 for a null buffer cannot be reached and is not modelled; a data size that a C++ int does not hold is not modelled.
- Entries of a wallet are values: that a pointer from `readEntry` lets a caller change one in place, and their deletion, are not modelled. The wildcard of `readEntryList` is any test of keys. `folderList`, `entryList` and the wallet list are left out.
- QString null against empty, and the difference of a null from an empty QByteArray, are not modelled.
- KSecretDevice.Device.ReadData: bytes copied from memory behind a chunk are not modelled beyond the flag that says so; read errors of the base device and its block-wise reading of very long arrays are not modelled, closing a device that has read, which would write its last chunk, is modelled as for one that wrote, and the re-entrancy flags are per object rather than shared by all devices.
- The magic, the salt and the locked part of a ksecret file, its access lists and the serialization of a collection are left out.
- KSecretCollection.Collection.CreateItem: requires a new identifier, as random identifiers are; times, signals to other objects, the sync timer and the `locked` argument are left out.
- Locking and unlocking a collection are left out, apart from the errors that a locked one gives; the results for `regexp:` and empty values are modelled but depend on the order of the hash.
- CryptBuffer.CryptBuffer.Encrypt: a second use of a buffer is stated here only; saving in `SecretsFile` gives each entity a fresh buffer, whereas an entity object saved twice uses its own again.
- CryptBuffer.CryptBuffer.Read: failing to allocate a buffer for a very large length is not modelled; it fails like the read it stands before.
- TextCodec.StringRoundTrip: a length too large for memory, for which resizing the string throws, is not modelled; where there is nothing to read behind the number, the character compared with the colon, which nothing has set, is taken to be another.
- SecretsDevice.MAC.Reset: errors of libgcrypt in resetting or keying a handle are not modelled; the key is found or not, and the handle valid or not.
- SecretsDevice.MAC.Update: errors of libgcrypt in feeding bytes are not modelled.
- SecretsDevice.MAC.Read: errors of libgcrypt in computing the code, and failing to allocate room for it, are not modelled.
- SecretsFile.SecretsFile.OpenAndCheck: an entity type that no class has makes the program fail in the source and is a status of its own here; read errors other than a short read are not modelled.
- Setting the store up again when its file is there but empty, and the temporary files that stopped saves leave behind, are not modelled.
- SecretsFile.SecretsFile.Save: that a save which fails late leaves its file open, so that the next one fails an assertion, is not modelled, nor are write errors other than a full disk and the order in which a file system makes renames durable.
- The key derivation, the keyring, the public interface of the store and the asynchronous jobs are left out.
- The sync protocol, the D-Bus interfaces, prompts and user interfaces are left out.
