# Hashing and fixed-size buffers of the EXACT support library

This project models two small pieces of the solver's support library.
It proves properties about them in Dafny.

**The integer hasher** (`src/exact/misc/Hash.hpp`).
- `HashHelpers<T, 4>` and `HashHelpers<T, 8>` supply:
  - the golden-ratio multiplier of Knuth's multiplicative hashing;
  - `rotate_left` on 32-bit and 64-bit words.
- `Hasher<T, T>` keeps one unsigned word of state.
- `addValue(v)` replaces the state by `(rotate_left(state, 5) ^ T(v)) * multiplier`, in unsigned arithmetic.
- `getHash()` returns the state.

The model is in `hash.dfy` (module `Hash`):
- A word of byte width 4 or 8 is a natural number below 2^32 or 2^64.
- Shifts, or, xor and wrap-around are written out on naturals in `bits.dfy` (module `Bits`).
- The hasher is a class. Its ghost fields `seed` and `values` record what it was built from. Its invariant says the state is the left fold `HashOf` of the mixing step `MixStep` over the values fed so far.

**The owned buffer** (`src/exact/misc/Array.hpp`).
- `Array<T>` allocates `n` elements at construction.
- It keeps `n` in its `ArrayDeleter<T>` and returns it from `getSize()`.
- It gives unchecked indexed access.
- Through the deleter, it hands the storage back to the allocator with the same `n`.

The model is in `fixedarray.dfy` (module `FixedArray`):
- `Array<T>` is a class over a Dafny `array<T>`.
- The allocator is a `Ledger`: a ghost history of allocation and deallocation events. The history is balanced when:
  - no block is allocated twice while it is live;
  - every deallocation names a live block, with the count that block is live with.
- The buffer, the deleter and the ledger are `const` fields of `Array`, so nothing resizes or reseats the buffer.

## Model

| member | source | states |
|---|---|---|
| Hash.FibonacciMultiplier | src/exact/misc/Hash.hpp:49-69 | The multiplier of either width (lines 49-53 and 65-69) is a word of that width, and it is odd |
| Hash.MultiplierInverse | src/exact/misc/Hash.hpp:49-69 | Each multiplier has an inverse modulo 2^w that is itself a word |
| Hash.MultiplierBijective | src/exact/misc/Hash.hpp:49-69 | Multiplying a word by the multiplier modulo 2^w is undone by multiplying by the inverse, in either order, so it is a bijection on words |
| Hash.MultiplierInjective | src/exact/misc/Hash.hpp:49-69 | Distinct words have distinct products with the multiplier modulo 2^w |
| Hash.RotateLeft | src/exact/misc/Hash.hpp:55-75 | `(x << n) \| (x >> (w - n))` on a w-bit word, for 0 < n < w, is the word whose high part is the low w - n bits of x and whose low n bits are the high n bits of x; the result is a word |
| Hash.RotateLeftBits | src/exact/misc/Hash.hpp:55-75 | Bit i of x is bit (i + n) mod w of `rotate_left(x, n)`, so the function is a left rotation |
| Hash.RotateLeftInverse | src/exact/misc/Hash.hpp:55-75 | Rotating left by n and then by w - n gives back x |
| Hash.RotateLeftInjective | src/exact/misc/Hash.hpp:55-75 | Equal rotations by the same amount come from equal words |
| Hash.Truncate | src/exact/misc/Hash.hpp:94 | `T(val)` gives a word congruent to val modulo 2^w, and leaves a value that is already a word unchanged (signed values included) |
| Hash.MixStep | src/exact/misc/Hash.hpp:94-95 | One `addValue` step, `(rotate_left(state, 5) ^ T(val)) * multiplier` wrapped modulo 2^w, maps a word state to a word |
| Hash.MixStepInjective | src/exact/misc/Hash.hpp:94-95 | From a fixed state, two values give the same next state if and only if they agree modulo 2^w |
| Hash.MixStepInjectiveInState | src/exact/misc/Hash.hpp:94-95 | For a fixed value, distinct states give distinct next states |
| Hash.HashOf | src/exact/misc/Hash.hpp:87-102 | The left fold of the mixing step from the seed is always a word |
| Hash.HashOfSnoc | src/exact/misc/Hash.hpp:89-96 | Feeding one more value applies exactly one more mixing step to the hash so far |
| Hash.HashOfAppend | src/exact/misc/Hash.hpp:87-102 | The hash of xs + ys is the hash of ys seeded with the hash of xs |
| Hash.HashOfTruncated | src/exact/misc/Hash.hpp:92-95 | Two sequences that agree element by element modulo 2^w hash alike |
| Hash.HashOfInjectiveInSeed | src/exact/misc/Hash.hpp:87-96 | Equal hashes of one sequence come from equal seeds |
| Hash.HashOfLastValue | src/exact/misc/Hash.hpp:92-96 | After a common prefix, two last values give the same hash if and only if they agree modulo 2^w |
| Hash.RotateFiveParity | src/exact/misc/Hash.hpp:55-59 | Bit 0 of a 32-bit word rotated left by 5 is its bit 27 |
| Hash.OrderMatters | src/exact/misc/Hash.hpp:92-96 | From seed 0 at 32 bits, feeding 1 then 2 gives a different hash from feeding 2 then 1 |
| Hash.Hasher.constructor | src/exact/misc/Hash.hpp:87 | A new hasher holds the seed (default 0) as its state, with no values fed |
| Hash.Hasher.AddValue | src/exact/misc/Hash.hpp:89-96 | The state becomes one mixing step of the old state and the value; the seed is kept; the value is appended to those fed; the state is still the fold of the values fed |
| Hash.Hasher.GetHash | src/exact/misc/Hash.hpp:98-102 | Returns the left fold of the mixing step over all values fed since construction, as a word, without changing the hasher |
| FixedArray.Ledger.Allocate | src/exact/misc/Array.hpp:54 | `allocate(n)` returns a fresh block of n elements with no claim about their values, and records it as live with count n |
| FixedArray.Ledger.Deallocate | src/exact/misc/Array.hpp:45 | `deallocate(p, n)` requires p live with exactly count n; afterwards p is no longer live and the history stays balanced |
| FixedArray.BalancedSnoc | src/exact/misc/Array.hpp:45-54 | Appending an event the allocator permits keeps the history balanced |
| FixedArray.OutstandingTraced | src/exact/misc/Array.hpp:45-54 | A live block was allocated with the count it is live with, and no later event concerns it |
| FixedArray.DeallocationMatchesAllocation | src/exact/misc/Array.hpp:40-54 | In a balanced history every deallocation hands back a block allocated earlier with exactly the same count, and not released since |
| FixedArray.NoDoubleRelease | src/exact/misc/Array.hpp:42-46 | Between two releases of the same block there is a fresh allocation of it |
| FixedArray.ArrayDeleter.Apply | src/exact/misc/Array.hpp:42-46 | The deleter releases p through the allocator with the count it stores |
| FixedArray.Array.constructor | src/exact/misc/Array.hpp:53-56 | `Array(n)` owns a fresh buffer of n elements; the deleter stores n; `getSize()` is n; the allocation is recorded |
| FixedArray.Array.GetSize | src/exact/misc/Array.hpp:58-62 | The count held by the deleter is the length of the buffer |
| FixedArray.Array.Get | src/exact/misc/Array.hpp:70-74 | The const `operator[]` reads element i; it requires 0 <= i < getSize(), negative indices included |
| FixedArray.Array.Set | src/exact/misc/Array.hpp:64-68 | Writing v through `operator[](i)` requires 0 <= i < getSize(). A later read of i gives v, every other element is kept, and the size does not change |
| FixedArray.Array.Release | src/exact/misc/Array.hpp:77 | Destroying the owner deallocates the buffer with exactly the count it was allocated with; afterwards the buffer is no longer live |

## Left out

- `rotate_left` at n = 0 or n = w is not modelled. The library's description says that rotating by 0 returns x. The code computes `x >> 32` (or `x >> 64`) there, which C++ leaves undefined. The model follows the code: it requires 0 < n < w. The hasher only rotates by 5.
- One-wayness of the mixing step is not modelled. The description calls the step one-way. It is in fact a bijection of the state for a fixed value: `MixStepInjectiveInState` proves this. Infeasibility of recovery is not a logical property.
- The `HashMap` and `HashSet` aliases (`src/exact/misc/Hash.hpp:105-125`) are not modelled. Their behaviour belongs to `ska::bytell_hash_map` / `std::unordered_map`, which are not part of this model.
- The `PAPILO_USE_STANDARD_HASHMAP` switch and `Config.hpp` are not modelled. They are build configuration.
- Template dispatch is not modelled (`make_unsigned`, `enable_if<is_integral>`, `sizeof`). The byte width is a value, 4 or 8. Inputs are mathematical integers reduced modulo 2^w, which covers every integral type and signedness.
- `std::hash` and `std::equal_to` are not modelled. They are foreign library code.
- `Allocator<T>` internals are not modelled: `exact/misc/Alloc.hpp` is not part of this model. The allocator is the `Ledger`. It fails on no request and records allocation and deallocation events.
- `std::unique_ptr` moves and the timing of its destructor are not modelled. Release is the explicit method `Array.Release`. After it the array is no longer `Valid()`, so it cannot be used or released again.
- `FixedArray.Array.GetSize`: `size_t` is modelled as an unbounded natural, so allocating more than `SIZE_MAX` elements is not modelled.
- `FixedArray.Array.Get`: the index is an unbounded integer rather than a 32-bit `int`. Sizes above 2^31 therefore have reachable indices in the model that C++ `int` cannot express.
- The element type must have a default value in Dafny (`T(0)`). No contract says anything about that value, so element contents after construction stay unspecified.
