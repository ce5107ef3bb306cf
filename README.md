# Bloom-filter password uniqueness check

This project models `task_1.py`, a small password-uniqueness checker built on a
Bloom filter.

- `BloomFilter` keeps a fixed array of `size` bits. Each item gets `num_hashes`
  bit positions, one per seed `0 .. num_hashes-1`. The position for seed `i` is
  `mmh3.hash(item, seed=i) % size`.
  - `add` sets the item's bits.
  - `item in filter` reports whether all of the item's bits are set.
- `check_password_uniqueness` walks a list of candidate passwords once. It gives
  each candidate one of three labels:
  - invalid: the candidate is not a string, or its `strip()` is empty;
  - already used: the filter reports the candidate present;
  - unique: otherwise, and the candidate is then added to the filter.

  The labels go into a dict keyed by the candidate, so a later occurrence of a
  key overwrites an earlier one.

The model has three modules.

- `PyStr` (`py_str.dfy`): the whitespace set of Python's `str.isspace()` and
  `str.strip()` with no argument.
- `Bloom` (`bloom.dfy`):
  - the pure parts of the filter: `Positions` (`_get_hashes`), `AllOnes` (the
    `all(...)` of `__contains__`) and `SetAll` (the bits after `add`);
  - the lemmas about them;
  - class `BloomFilter`, whose `Add` method writes an `array<bv1>` in place. A
    ghost set `added` records the items added so far. The object invariant
    `Valid()` states that every added item reads as present, so the filter has
    no false negatives.
- `PasswordCheck` (`password_check.dfy`):
  - `Step`, a specification of one turn of the loop;
  - `BitsAfter` and `ResultsAfter`, the state after the first `k` candidates;
  - lemmas about that specification;
  - the method `CheckPasswordUniqueness`, proved equal to that specification.

`mmh3.hash` is a foreign hash. It is modelled as an arbitrary deterministic
function `Hash = (string, nat) -> int`, which is fixed when the filter is
constructed, and its output may be negative. Python's `%` by a positive divisor
returns a value in `[0, size)` even for a negative hash. Dafny's `%` on `int`
does the same, and `PositionAt` states both the range and the congruence.

The code validates neither constructor argument. The model follows it as far as
it can represent it:

- The model requires `size >= 1`. Every position is `hash % size`, so a
  position is an index into the array only for a positive size. The
  configurations this excludes are listed under "## Left out".
- A zero or negative `num_hashes` is accepted. `range(num_hashes)` is then empty
  (`Config.HashCount`), and `all([])` is true, so every item reads as present.
  No error is raised for it, and the model raises none either.

## Model

| member | source | states |
|---|---|---|
| PyStr.IsSpace | task_1.py:28 | definition: the characters Python 3's `str.isspace()` accepts, which are the characters `strip()` with no argument removes |
| PyStr.LStrip | task_1.py:28 | `lstrip()` drops exactly a whitespace-only prefix, and the rest does not start with whitespace |
| PyStr.RStrip | task_1.py:28 | `rstrip()` drops exactly a whitespace-only suffix, and the rest does not end with whitespace |
| PyStr.Strip | task_1.py:28 | `strip()` is no longer than its input and neither starts nor ends with whitespace |
| PyStr.StripIsSlice | task_1.py:28 | `strip()` is the slice of `s` that is left after removing a whitespace-only prefix and a whitespace-only suffix |
| PyStr.StripEmptyIffAllSpace | task_1.py:28 | `not s.strip()` holds exactly when `s` is empty or all whitespace |
| Bloom.Config.HashCount | task_1.py:14 | definition: the number of seeds `range(num_hashes)` yields, which is `num_hashes`, or 0 when it is negative |
| Bloom.Positions | task_1.py:11-15 | `_get_hashes` gives exactly `num_hashes` positions (none when it is negative), each in `[0, size)` |
| Bloom.SeededPositions | task_1.py:12-15 | the comprehension over seeds `0 .. n-1` has `n` entries, all in range |
| Bloom.PositionAt | task_1.py:13 | position `i` lies in `[0, size)` and is congruent to `hash(item, i)` modulo `size` (Python's `%` by a positive divisor) |
| Bloom.ModCongruent | task_1.py:13 | `a - a % m` is a multiple of `m` for `m >= 1` |
| Bloom.AllOnes | task_1.py:22 | the short-circuit `all(...)` is true exactly when every listed bit is 1 |
| Bloom.SetAll | task_1.py:17-19 | setting bits keeps the array length |
| Bloom.SetAllAt | task_1.py:17-19 | after `add`, a listed position is 1 and every other bit keeps its old value |
| Bloom.SetAllSetsEvery | task_1.py:17-22 | right after `add(x)`, `x in filter` holds |
| Bloom.SetAllMonotone | task_1.py:17-19 | `add` never clears a bit that was set |
| Bloom.SetAllKeepsPresent | task_1.py:17-22 | an item reported present stays present after another `add` |
| Bloom.SetAllIdempotent | task_1.py:17-19 | a second `add` of the same item leaves the bits unchanged |
| Bloom.SetAllUnchangedIff | task_1.py:17-22 | `add(x)` changes nothing exactly when `x in filter` already held |
| Bloom.AddEach | task_1.py:17-19 | a sequence of `add` calls keeps the array length |
| Bloom.AddEachMonotone | task_1.py:17-19 | a sequence of `add` calls never clears a bit |
| Bloom.NoFalseNegatives | task_1.py:17-22 | after `add(x)` and any further `add` calls, `x in filter` still holds |
| Bloom.SingleBitCollision | task_1.py:11-22 | with `size == 1`, after adding any item every item is reported present |
| Bloom.BloomFilter.constructor | task_1.py:6-9 | the filter stores `size` and `num_hashes` and starts with `size` zero bits |
| Bloom.BloomFilter.Add | task_1.py:17-19 | the new bits are the old bits with the item's positions set, the invariant is kept, and the item is then present |
| Bloom.BloomFilter.Contains | task_1.py:21-22 | true exactly when every position of the item is set, and always true for an added item |
| PasswordCheck.IsValid | task_1.py:28 | definition: a candidate passes the test exactly when it is a string with at least one non-whitespace character (the negation of the test's condition) |
| PasswordCheck.IsValidIff | task_1.py:28 | the test `isinstance(c, str) and c.strip()` accepts exactly strings that have a non-whitespace character |
| PasswordCheck.Step | task_1.py:27-36 | one turn keeps the bit-array length |
| PasswordCheck.StepSpec | task_1.py:28-36 | invalid exactly for a non-string or blank candidate; already used, for a valid one, exactly when the filter reports it present; invalid and already used leave the bits alone; unique adds it; a valid candidate is present afterwards |
| PasswordCheck.StepMonotone | task_1.py:28-36 | no turn clears a set bit |
| PasswordCheck.BitsAfter | task_1.py:27-36 | the bits after the first `k` turns keep the array length |
| PasswordCheck.LabelAt | task_1.py:29-35 | definition: the label written for `cs[i]`, which is `Step` applied to the bits left by the candidates before it |
| PasswordCheck.ResultsAfter | task_1.py:26-36 | the keys of the results after `k` turns are exactly the candidates seen so far |
| PasswordCheck.LastOccurrenceWins | task_1.py:29-35 | a candidate's entry holds the label of its last occurrence |
| PasswordCheck.BitsAfterMonotone | task_1.py:27-36 | bits set after `i` turns are still set after any later turn |
| PasswordCheck.RepeatIsAlreadyUsed | task_1.py:32-36 | a later occurrence of an already processed valid candidate is labelled already used |
| PasswordCheck.PresentBeforeNeverUnique | task_1.py:32-33 | a valid candidate the filter reported present before the call is labelled already used |
| PasswordCheck.SingleBitAllUsed | task_1.py:32-36 | with a one-bit filter, every valid candidate after the first is labelled already used |
| PasswordCheck.CheckOne | task_1.py:28-36 | one turn on the real filter gives the label and the new bits that `Step` specifies, and keeps the invariant |
| PasswordCheck.CheckPasswordUniqueness | task_1.py:25-38 | the result and the filter's final bits are those of `ResultsAfter` and `BitsAfter` over the whole list, and the filter stays valid |

## Left out

- The internals of `mmh3.hash` (task_1.py:13) are not modelled. The model takes any deterministic function of the item and the seed. So the range of the hash (signed 32-bit) is not modelled, and no concrete position is computed.
- The `__main__` demo (task_1.py:41-54) and its printed output are not modelled. They are I/O, and the concrete outcome of the demo depends on concrete `mmh3` values.
- False-positive rates and other statistical behaviour are not modelled. The code promises none of them.
- The labels are a three-value datatype instead of the Ukrainian strings at task_1.py:29, 33 and 35.
- A dict's insertion order is not modelled. The result is a `map`, so only its contents are captured.
- PasswordCheck.StepSpec: for an invalid candidate it states only that the bits are unchanged. That the filter is not even queried is visible in `CheckOne`'s branches but is not stated by a contract.
- PasswordCheck.Candidate has three kinds: a string, `None`, and any other hashable value told apart by an integer identity. Two Python equalities across types (such as `1 == True`) and unhashable candidates, which would make the dict assignment raise `TypeError`, are not modelled.
- The ghost set `added` in `BloomFilter` records the items added so far, for the no-false-negatives invariant. The source has no such field.
- Configurations with `size <= 0` are not modelled, because the constructor requires `size >= 1`. In Python, `[0] * size` accepts any integer, and `%` runs only when an item is hashed with `num_hashes >= 1`. So the source behaves as follows on configurations the model excludes:
  - A filter with `size <= 0` and `num_hashes <= 0` works and reports every item present.
  - On a size-0 filter, `check_password_uniqueness` returns normally when every candidate is invalid.
  - A size-0 filter raises `ZeroDivisionError` at task_1.py:13 once a valid item is hashed.
  - A negative `size` with `num_hashes >= 1` raises `IndexError` at task_1.py:19 or 22.
- Python strings that hold a lone surrogate (such as `"x\ud800"`) cannot be represented. A Dafny `string` holds only Unicode scalar values. In the source, such a non-blank candidate passes the test at task_1.py:28. When `num_hashes >= 1`, `mmh3.hash` (task_1.py:13, reached from task_1.py:32) then raises `UnicodeEncodeError` and the whole call aborts. The model's `Hash` is total, so this exception path is not modelled.
