# MString, modelled in Dafny

`MString` (MUtils/String.hpp) is a hand-rolled dynamic string. It owns a heap
buffer `string` of exactly `count + 1` characters, terminated by NUL. It has
no buffer at all (a null pointer) after `MString(true)` and after it has been
moved from. The mutators replace the buffer in three ways:

- `Append`, `operator+`, `InsertAt` and `RemoveAt` allocate a fresh buffer and
  fill it with `memcpy` from slices of the old buffer and of the argument.
  `Append` and `operator+` copy the argument's terminator along with its
  characters. `InsertAt` and `RemoveAt` write the terminator themselves; `InsertAt`
  frees the old buffer before writing it, `RemoveAt` after. `operator+` leaves
  its receiver alone and fills the buffer of the string it returns.
- The copying assignments `operator=(const char*)` and `operator=(const
  MString&)` free the old buffer first and then copy the argument, terminator
  included, into a fresh one (`copy`).
- `operator=(MString&&)` and the move constructor allocate and copy nothing:
  they take over the argument's buffer and leave the argument null. `Empty`
  frees the buffer and allocates a one-character `""` buffer, with no `memcpy`.

The model has four modules:

- `CStrings` (cstrings.dfy) covers the C library the class calls.
  `strlen` is `StrLen`, `strcmp` is `StrCmp`, `strstr` is `StrStr`, and
  `memcpy` is `MemCopy`, a loop over an `array<char>`. `tolower` and `toupper`
  are `LowerChar` and `UpperChar` in the "C" locale. A `const char*` argument
  is the sequence of characters readable through the pointer. It must hold a
  terminator (`Terminated`), and the C string it denotes is the part before
  the first one (`Text`).
- `MStrings` (mstring.dfy) holds the class `MString`. Its fields are
  `buf: array?<char>` (null is the null pointer) and `count: nat`.
  `Valid()` is the representation invariant:
  - a null buffer has `count == 0`;
  - otherwise the buffer has `count + 1` cells, `buf[count]` is NUL, and no
    NUL occurs before `count`.

  `Contents()` is the text the string holds. Each mutator is a method that
  changes the buffer as the source does, except `RemoveAt`, which is the
  corrected version (see Findings). The copying ones allocate a fresh
  array and fill it with `MemCopy`. `MoveAssign` and `Move` reassign the
  buffer fields. `Empty` allocates a one-cell array and stores NUL in it. Each
  method's `ensures` give the new `Contents()` as a sequence expression over
  the old one. The read-only queries are functions. The spec functions
  `InsertedAt` and `RemovedAt` and the lemmas about them sit beside the class.
- `RemoveAtFindings` (findings.dfy) holds the two defects of `RemoveAt`
  (see Findings).
- `Win32Test` (win32test.dfy) replays Win32Test/main.cpp step by step. Each
  demo method builds the string that main.cpp has at that point from a
  literal, then applies one step. It shows that the contracts alone determine
  the result of each step. The chain of steps is checked one link at a time:
  each method starts from a literal holding the string that the previous
  method proves. It also holds the object-level insert/remove round trip.

The null pointer is handled as follows. `memcpy` of zero characters from a
null buffer is taken to copy nothing. So a null string behaves as the empty
text in `Append`, `InsertAt`, `RemoveAt` and `operator+`. After `Append`, and
after an `InsertAt` or `RemoveAt` that passes its guard, the string has a
buffer. `operator+` leaves a null receiver null (it is `const`) and returns a
string with a buffer. `Empty` leaves a null string null. Operations that read
through the pointer have a non-null buffer as a precondition. These are the
copy constructor, `operator=(const MString&)`, `ToLower`/`ToUpper` (which copy
`*this`), `Contains`, `==` and `operator[]`. The same holds for the
`MString` argument of `Append` and `operator+`, which copy its terminator.
`Str` only returns the pointer; its non-null precondition is a modelling
choice (see Left out).

## Model

| member | source | states |
|---|---|---|
| `CStrings.StrLen` | MUtils/String.hpp:218 | strlen is the index of the first terminator: the character there is NUL and none before it is |
| `CStrings.Text` | MUtils/String.hpp:218-220 | the C string behind a pointer holds no NUL, and the memory it points to starts with it followed by the terminator |
| `CStrings.TextOfTerminated` | MUtils/String.hpp:220-221 | a NUL-free text followed by a terminator denotes exactly that text |
| `CStrings.StrCmp` | MUtils/String.hpp:208-209 | a nonzero strcmp result is the difference of the two characters at the first position where the strings differ, and before it both share a terminator-free prefix; the zero case is characterised by StrCmpZeroIff |
| `CStrings.StrCmpZeroIff` | MUtils/String.hpp:208-209 | strcmp returns 0 if and only if the two C strings have the same text |
| `CStrings.FindFrom` | MUtils/String.hpp:102-103 | the search finds the first position at or after i where the needle occurs, or reports that it occurs nowhere from i on |
| `CStrings.StrStr` | MUtils/String.hpp:102-103 | strstr is non-null if and only if the needle's text occurs in the haystack's text, and then points at an occurrence |
| `CStrings.LowerChar` | MUtils/String.hpp:193 | tolower maps A-Z to a-z by adding 32, keeps every other character, and never returns an upper-case letter |
| `CStrings.UpperChar` | MUtils/String.hpp:201 | toupper maps a-z to A-Z by subtracting 32, keeps every other character, and never returns a lower-case letter |
| `CStrings.Lower` | MUtils/String.hpp:192-193 | lower-casing keeps the length and maps each character with tolower |
| `CStrings.Upper` | MUtils/String.hpp:200-201 | upper-casing keeps the length and maps each character with toupper |
| `CStrings.CaseMappingKeepsNulFree` | MUtils/String.hpp:189-203 | case mapping neither introduces nor removes a terminator, so the loops of ToLower/ToUpper keep the count |
| `CStrings.CaseMappingIdempotent` | MUtils/String.hpp:189-203 | lower-casing twice equals lower-casing once, and the same for upper-casing; mapping to one case after the other equals mapping to that case directly |
| `CStrings.MemCopy` | MUtils/String.hpp:46-47 | memcpy makes n characters of the destination, starting at the offset, equal to n characters of the source, and leaves the rest of the destination untouched |
| `MStrings.InsertedAt` | MUtils/String.hpp:142-144 | the inserted text has both lengths added, the prefix up to i is kept, t sits at i, and the rest of s follows |
| `MStrings.RemovedAt` | MUtils/String.hpp:172-173 | the edited text is n characters shorter, the prefix up to i is kept, and the text after the removed run follows |
| `MStrings.InsertRemoveRoundTrip` | MUtils/String.hpp:136-178 | removing at idx as many characters as were just inserted there gives back the original text |
| `MStrings.RemoveAtTail` | MUtils/String.hpp:171-175 | the intended tail copy of RemoveAt ends exactly at the old count |
| `MStrings.JoinBuffer` | MUtils/String.hpp:107-109 | the buffer built by Append and operator+ is the old characters followed by the argument's characters and terminator |
| `MStrings.SpliceBuffer` | MUtils/String.hpp:141-147 | the buffer built by InsertAt is the old prefix, the inserted characters, the old rest, then a terminator |
| `MStrings.MString.Contents` | MUtils/String.hpp:240-241 | the text has count characters and no terminator |
| `MStrings.MString.Str` | MUtils/String.hpp:205 | the buffer is the contents followed by a terminator, and its strlen equals count |
| `MStrings.MString.Count` | MUtils/String.hpp:206 | Count is the length of the contents, and equals strlen(Str()) whenever there is a buffer |
| `MStrings.MString.ValidIndex` | MUtils/String.hpp:165 | true if and only if there is a buffer and idx is below the length of the contents; the character there is then not a terminator |
| `MStrings.MString.At` | MUtils/String.hpp:100 | operator[] reads the idx-th character of the contents; it reads NUL if and only if idx == count |
| `MStrings.MString.Equals` | MUtils/String.hpp:208 | == on two strings holds if and only if their contents are equal |
| `MStrings.MString.EqualsCStr` | MUtils/String.hpp:209 | == on a C string holds if and only if the contents equal its text |
| `MStrings.MString.Contains` | MUtils/String.hpp:102 | Contains holds if and only if sub's contents occur somewhere in the contents |
| `MStrings.MString.ContainsCStr` | MUtils/String.hpp:103 | Contains holds if and only if the C string's text occurs somewhere in the contents |
| `MStrings.MString.constructor` | MUtils/String.hpp:10-16 | MString(empty) holds the empty text; it has no buffer if and only if empty is true, and otherwise a fresh one-cell buffer |
| `MStrings.MString.FromCStr` | MUtils/String.hpp:18 | the string holds the C string's text in a fresh valid buffer |
| `MStrings.MString.FromCStrBounded` | MUtils/String.hpp:19 | count is min(length, strlen(p)), and the buffer is the first count characters of p followed by NUL |
| `MStrings.MString.Copy` | MUtils/String.hpp:20 | the copy holds the same contents in a fresh buffer |
| `MStrings.MString.Move` | MUtils/String.hpp:22-28 | the new string takes over other's buffer and contents; other is left null with count 0 |
| `MStrings.MString.CopyCStr` | MUtils/String.hpp:216-222 | a fresh valid buffer holding the C string's text and terminator |
| `MStrings.MString.CopyFrom` | MUtils/String.hpp:224-229 | a fresh valid buffer holding other's characters and terminator |
| `MStrings.MString.CopyCStrBounded` | MUtils/String.hpp:231-238 | a fresh valid buffer holding the first min(length, strlen(p)) characters of p, then NUL |
| `MStrings.MString.AssignCStr` | MUtils/String.hpp:76-81 | after assignment the contents are the C string's text |
| `MStrings.MString.Assign` | MUtils/String.hpp:83-88 | after assigning another string the contents are that string's contents |
| `MStrings.MString.MoveAssign` | MUtils/String.hpp:90-98 | this string takes over other's buffer and contents, and other is left null; moving a string into itself leaves it null |
| `MStrings.MString.Plus` | MUtils/String.hpp:40-49 | operator+ returns a fresh string with this contents followed by other's; its count is the sum; neither operand changes |
| `MStrings.MString.PlusCStr` | MUtils/String.hpp:51-62 | operator+ with a C string returns this contents followed by its text, with count plus strlen; the receiver does not change |
| `MStrings.MString.Append` | MUtils/String.hpp:105-113 | the new contents are the old contents followed by other's; count is the sum; other does not change |
| `MStrings.MString.AppendCStr` | MUtils/String.hpp:115-124 | the new contents are the old contents followed by the C string's text; count grows by its strlen |
| `MStrings.MString.AddAssign` | MUtils/String.hpp:64-68 | += behaves as Append: old contents followed by other's; other does not change |
| `MStrings.MString.AddAssignCStr` | MUtils/String.hpp:70-74 | += with a C string: old contents followed by its text |
| `MStrings.MString.Empty` | MUtils/String.hpp:126-134 | a null string is left as it is; otherwise the string gets a fresh buffer holding the empty text |
| `MStrings.MString.InsertAtCStr` | MUtils/String.hpp:136-149 | with idx <= count the contents become InsertedAt(old, idx, text) and count grows by strlen; with idx > count nothing changes |
| `MStrings.MString.InsertAt` | MUtils/String.hpp:151-163 | with idx <= count the contents become InsertedAt(old, idx, other's contents) and count grows by other's count; with idx > count nothing changes |
| `MStrings.MString.RemoveAt` | MUtils/String.hpp:167-178 | with idx + size <= count the contents become RemovedAt(old, idx, size) and count shrinks by size; otherwise nothing changes |
| `MStrings.MString.ToLower` | MUtils/String.hpp:189-195 | returns a fresh string with the same count, every character lower-cased; the receiver does not change |
| `MStrings.MString.ToUpper` | MUtils/String.hpp:197-203 | returns a fresh string with the same count, every character upper-cased; the receiver does not change |
| `RemoveAtFindings.ProceedsAsWritten` | MUtils/String.hpp:169 | the guard as compiled lets RemoveAt proceed exactly when the 32-bit sum idx + size is at most count |
| `RemoveAtFindings.GuardAdmitsOutOfRange` | MUtils/String.hpp:169 | the 32-bit guard lets through a run outside the string if and only if idx + size wraps past 2^32 to a value of at most count |
| `RemoveAtFindings.GuardAdmitsOutOfRangeExample` | MUtils/String.hpp:169 | RemoveAt(1, 0xFFFFFFFF) on a four-character string passes the guard |
| `RemoveAtFindings.GuardAgreesWhenNoWrap` | MUtils/String.hpp:169 | without wrap-around the guard admits exactly the runs inside the string |
| `RemoveAtFindings.TailLengthAsWritten` | MUtils/String.hpp:173 | the length copied as written exceeds the intended length by 2 * size |
| `RemoveAtFindings.TailAsWrittenInBoundsIff` | MUtils/String.hpp:171-175 | as written, the tail copy stays inside both buffers if and only if size is 0 |
| `RemoveAtFindings.TailAsWrittenOverrunsInDemo` | Win32Test/main.cpp:31 | the demo's RemoveAt(1, 2) on 14 characters copies 15 characters, 3 past the old buffer and 3 past the new one |
| `RemoveAtFindings.TailInBounds` | MUtils/String.hpp:171-175 | the intended length count - idx - size keeps both sides of the copy inside their buffers |
| `Win32Test.InsertThenRemove` | Win32Test/main.cpp:29-32 | on one string object, InsertAt(idx, p) followed by RemoveAt(idx, strlen(p)) restores the contents and the count for every idx, including an idx past the end, where both calls change nothing |

## Findings

| source | as written | input that shows it | evidently intended | confidence | as-written member | corrected member |
|---|---|---|---|---|---|---|
| MUtils/String.hpp:173 | the tail copy moves `count - idx + size` characters | RemoveAt(1, 2) on "Tryest2TestTry" (Win32Test/main.cpp:31): 15 characters copied from offset 3 of a 15-cell buffer into offset 1 of a 13-cell buffer | `count - idx - size` characters, which ends at the old count; line 171 sizes the new buffer for that and line 175 writes the terminator there | high; not executed | `RemoveAtFindings.TailAsWrittenInBoundsIff` | `MStrings.MString.RemoveAt` |
| MUtils/String.hpp:169 | the guard `idx + size > count` adds two `unsigned int` values, so the sum wraps modulo 2^32 | RemoveAt(1, 0xFFFFFFFF) on "Test": the sum wraps to 0 and the guard passes. `temp` gets (4 - 0xFFFFFFFF + 1) mod 2^32 = 6 cells, the two writes (1 character, then 2) stay inside it, and `count` ends as 5. Only the source of the second memcpy, `string + idx + size` at line 173, leaves the buffer: with 64-bit pointers it reads 2 characters 2^32 bytes past `string` (with 32-bit pointers the address wraps back to `string`) | every run that does not lie inside the string is a no-op | medium; not executed | `RemoveAtFindings.ProceedsAsWritten` | `MStrings.MString.RemoveAt` |

`RemoveAtFindings.GuardAdmitsOutOfRange` proves when the guard as written, `ProceedsAsWritten`, admits a run outside the string, and `GuardAdmitsOutOfRangeExample` gives the input above. `MStrings.MString.RemoveAt` is the corrected version used by the rest of the model. It tests the run against count without wrap-around and copies `RemoveAtTail(count, idx, size)` characters. Its `ensures` prove the intended result `RemovedAt(old, idx, size)` and the no-op outside the string.

## Left out

- `MString::Split` (MUtils/String.hpp:180-187) is not modelled. It takes the addresses of temporaries and assigns them to by-value pointer parameters, and it has no `return` on its success path. It therefore has no defined result to state.
- The destructor and the freeing of old buffers (MUtils/String.hpp:30-38 and every `delete string`) are not modelled. The same goes for the `delete` versus `delete[]` mismatch and allocation failure. Replacing a buffer is modelled as allocating a fresh array only.
- Writing through the reference that `operator[]` returns (MUtils/String.hpp:100) is not modelled. Writing a NUL there would break the count invariant, and the class has no contract for it. Only reading is modelled, by `At`.
- MStrings.MString.At: the source does not check the index. The model requires `idx <= count`, because reading past the buffer is undefined.
- MStrings.MString.Str: on a null buffer the source returns a null pointer. The model requires a buffer, since it represents pointed-to memory as a sequence.
- `count` is a 32-bit `unsigned int`. Its wrap-around in `Append`, `InsertAt` and `operator+` needs strings of 4 GiB and is not modelled: counts and indices are unbounded naturals. The wrap-around of the RemoveAt guard is modelled, in `RemoveAtFindings`.
- `operator=(const char*)` given a pointer into the object's own buffer reads freed memory. A `char*` argument is modelled as a value sequence, so this aliasing cannot be expressed.
- `operator=(const MString&)` frees its own buffer before copying from the argument, so the model requires the argument to be a different object.
- `tolower` and `toupper` are modelled in the "C" locale (ASCII A-Z and a-z only). Other locales and negative `char` values are not modelled.
- MUtils/Maths/Quaternion.cpp, Quaternion.hpp, Transform.cpp and Transform.hpp are not part of this model. They are floating-point rotation and matrix algebra over vector and matrix types whose sources are not part of this model.
- Win32Test/main.cpp's console output (`LOG`) and its final infinite loop are not modelled. Its string operations are replayed by the `Win32Test` demo methods.
