# halotools: array utilities and HOD composite-model bookkeeping, in Dafny

This project models two parts of halotools, a Python package for building
mock galaxy catalogues on dark-matter halo catalogues.

- `halotools/utils/array_utils.py`, in module `ArrayUtils` (`array_utils.dfy`):
  - `custom_len`: a length that counts a scalar as 1;
  - `find_idx_nearest_val`: argsort, then a left-side binary search, then the nearer neighbour, with ties going to the upper one;
  - `array_is_monotonic`: a classifier over consecutive differences, strict or not;
  - `unsorting_indices`: the inverse of an argsort permutation, built by scattering into a zeroed array;
  - the size check of `randomly_downsample_data`, with the random numbers taken as an input.
- `halotools/empirical_models/hod_factory.py`, in module `HodFactory` (`hod_factory.dfy`): how `HodModel` combines the component models of a model blueprint into one composite HOD model:
  - consolidating the primary, secondary and boundary halo property keys (`return_haloprop_dict`);
  - ordering the galaxy types by occupation bound;
  - the first-writer-wins merge of the halo profile function and table dictionaries;
  - validating override tables;
  - prefixing the profile parameter keys;
  - the deduplicated publication list.

`wrappers.dfy` holds `Option` and `Result`: Python's `None`, and raised exceptions as values. It has no rows of its own. `collections.dfy` holds the facts about sequences and sets shared by both modules, also without rows.

Modelling decisions:
- Array values are mathematical integers.
- `np.argsort` is a stable insertion argsort (`ArrayUtils.Argsort`). It is proved to be a permutation that visits the values in non-decreasing order. Every property stated about its callers holds for any such permutation, except the choice among equal values.
- `np.searchsorted(..., side="left")` is a recursive binary search.
- A Python dictionary's iteration order is made explicit:
  - `Blueprint.galTypes` gives the key order of the blueprint;
  - an override dictionary is the sequence of its items in iteration order;
  - `list(set(...))` yields the elements of the set in an order left open.
- A galaxy type's features are its occupation model, its profile model and any others (`GalTypeModels`). Each feature is a `Component`: its halo property key dictionary and its publications.
- The halo profile model of a profile feature holds a function dictionary and a table dictionary. Functions are opaque names (`ProfFunc`). An override value either is a tuple of numbers or is not (`PyValue`).
- `HodModel` is a class whose fields are the attributes the source assigns on `self`. Each `_set_*` method has a `modifies` clause naming exactly the fields it assigns. `NewHodModel` runs the `__init__` sequence.

## Model

| member | source | states |
|---|---|---|
| ArrayUtils.CustomLen | halotools/utils/array_utils.py:44-49 | the length of an iterable; 1 for a scalar, where `len` raises TypeError |
| ArrayUtils.Argsort | halotools/utils/array_utils.py:82 | the result is a permutation of the indices of `a` that visits the values of `a` in non-decreasing order |
| ArrayUtils.SearchSortedLeft | halotools/utils/array_utils.py:84 | on a sorted sequence, every element before the result is below `v` and every element from it on is at least `v` (the leftmost insertion point) |
| ArrayUtils.FindIdxNearestVal | halotools/utils/array_utils.py:78-97 | fails with the empty-array error exactly when the array is empty; otherwise returns a valid index |
| ArrayUtils.NearestIsClosest | halotools/utils/array_utils.py:82-97 | no element of the array is strictly closer to `value` than the element at the returned index |
| ArrayUtils.NearestPrefersUpper | halotools/utils/array_utils.py:92-97 | any element at or above `value` that is as near as the returned element has the returned element's value, so a tie between the two sorted neighbours goes to the upper one |
| ArrayUtils.NearestAboveAll | halotools/utils/array_utils.py:85-87 | when `value` exceeds every element, the result indexes a largest element |
| ArrayUtils.NearestBelowAll | halotools/utils/array_utils.py:88-90 | when `value` is at most every element (insertion point 0), the result indexes a smallest element |
| ArrayUtils.ArrayIsMonotonic | halotools/utils/array_utils.py:167-185 | fails with the too-few-elements error exactly when there are fewer than 3 elements; otherwise the flag is -1, 0 or 1 |
| ArrayUtils.ArrayIsMonotonicClassifies | halotools/utils/array_utils.py:170-185 | 1 exactly when every pair of positions is in increasing order (strictly when `strict`); -1 exactly when not increasing but decreasing; 0 exactly when neither |
| ArrayUtils.ConstantArrayFlags | halotools/utils/array_utils.py:158-164 | a constant array gives 1 when not strict and 0 when strict |
| ArrayUtils.PySliceStop | halotools/utils/array_utils.py:131 | a slice `[0:stop]` ends at `stop` when `0 <= stop <= n`, at `n + stop` for a negative stop with `-stop <= n`, at 0 for a stop below `-n`, and at `n` for a stop above `n` |
| ArrayUtils.RandomlyDownsampleData | halotools/utils/array_utils.py:123-131 | fails with the requested and available lengths exactly when more rows are requested than exist; otherwise returns as many rows as requested for a non-negative request, and for a negative request `n + num_downsample` rows, or none when that is negative (Python's slice clamping) |
| ArrayUtils.DownsampleTakesSmallestKeys | halotools/utils/array_utils.py:128-131 | the downsample takes each row at most once: the rows under a duplicate-free index list, none of whose random numbers exceeds that of a row left out |
| ArrayUtils.UnsortingIndices | halotools/utils/array_utils.py:210-213 | a newly allocated array equal to a zero array after the scatter `u[s[i]] = i` over all `i` in order |
| ArrayUtils.UnsortingInverts | halotools/utils/array_utils.py:210-213 | for a permutation `s`, the unsorting indices are a permutation with `u[s[i]] == i` and `s[u[j]] == j` |
| ArrayUtils.UnsortRoundTrip | halotools/utils/array_utils.py:203-207 | `x[s][u] == x` for any permutation `s` of the indices of `x` |
| HodFactory.CollectHaloprops | halotools/empirical_models/hod_factory.py:425-444 | the set of each collected list is exactly the set of values the blueprint's features give for that key |
| HodFactory.ReturnHalopropDict | halotools/empirical_models/hod_factory.py:423-468 | the collecting loops and the checks compute `HalopropKeyDict`, whose meaning the next two rows state |
| HodFactory.HalopropKeyDictErrors | halotools/empirical_models/hod_factory.py:446-460 | the error is: no primary key exactly when no feature gives one; distinct primary keys exactly when two features disagree; then the same two for the halo boundary; then distinct secondary keys exactly when two features disagree on it. Success exactly when the primary key and boundary are each given and agreed, and the secondary keys agree |
| HodFactory.HalopropKeyDictValues | halotools/empirical_models/hod_factory.py:462-468 | on success the output holds the primary key and the boundary, holds the secondary key exactly when some feature gives one, holds no other key, and equals what every feature giving each key gives |
| HodFactory.HodModel.SetHaloprops | halotools/empirical_models/hod_factory.py:64-72 | on an error nothing is assigned. Otherwise the key dictionary is stored, `prim_haloprop_key` is taken from it, and `sec_haloprop_key` is taken from it only when present |
| HodFactory.GalTypesByBoundOrders | halotools/empirical_models/hod_factory.py:75-84 | the ordered galaxy types are the blueprint's keys, each exactly once, in non-decreasing order of occupation bound |
| HodFactory.HodModel.SetGalTypes | halotools/empirical_models/hod_factory.py:74-89 | `gal_types` becomes the blueprint's keys ordered by occupation bound, and `occupation_bound` maps every galaxy type to its bound |
| HodFactory.FirstWriterMergeKeys | halotools/empirical_models/hod_factory.py:183-190 | a key is in the merged dictionary exactly when some galaxy type's dictionary offers it |
| HodFactory.FirstWriterMergeWins | halotools/empirical_models/hod_factory.py:183-200 | a merged key holds the value, and records the galaxy type, of the first galaxy type in `gal_types` order that offers it; later offers never overwrite |
| HodFactory.AbsorbKeys | halotools/empirical_models/hod_factory.py:186-190 | the key-by-key inner loop adds exactly the offered keys not yet present, each with its value and galaxy type |
| HodFactory.MergeFirstWriter | halotools/empirical_models/hod_factory.py:181-190 | the nested merge loops compute the first-writer-wins merge of the galaxy types' dictionaries in order |
| HodFactory.HodModel.SetHaloProfFuncDict | halotools/empirical_models/hod_factory.py:181-205 | `halo_prof_func_dict` becomes the first-writer-wins merge of the galaxy types' profile function dictionaries in `gal_types` order; then the prefixed keys are set as in the next row |
| HodFactory.HodModel.SetGalProfParams | halotools/empirical_models/hod_factory.py:207-211 | `gal_prof_param_keys` has one entry per key of `halo_prof_func_dict`, without repetition, and its entries are exactly the prefix followed by each key |
| HodFactory.ApplyOverridesErrors | halotools/empirical_models/hod_factory.py:251-255 | the overrides fail exactly when some value is not a tuple or is a tuple of length other than 3, with the TypeError of the first such item |
| HodFactory.ApplyOverridesKeepsOthers | halotools/empirical_models/hod_factory.py:251-257 | a key that no override item names keeps its merged entry, or stays absent |
| HodFactory.ApplyOverridesStores | halotools/empirical_models/hod_factory.py:251-257 | when every item is valid and the keys are distinct, as a dictionary's are, each key holds its override table |
| HodFactory.HodModel.SetProfParamTableDict | halotools/empirical_models/hod_factory.py:214-257 | the key correspondence is the owner map of the first-writer-wins merge of the table dictionaries. The table dictionary and the error are the result of applying the override items in order to the merged tables |
| HodFactory.PubListElems | halotools/empirical_models/hod_factory.py:408-415 | a publication is in the extended list exactly when some feature lists it |
| HodFactory.ConcatPublications | halotools/empirical_models/hod_factory.py:408-415 | the nested loops extend `pub_list` with every feature's publications, galaxy type by galaxy type |
| HodFactory.ListOfSet | halotools/empirical_models/hod_factory.py:417 | `list(set(s))` has no repetition and has the same elements as `s` |
| HodFactory.HodModel.BuildPublicationList | halotools/empirical_models/hod_factory.py:408-417 | the list has no repetition, and a publication is in it exactly when some feature of some galaxy type lists it |
| HodFactory.NewHodModel | halotools/empirical_models/hod_factory.py:30-62 | construction fails exactly when the halo property keys do, with that error. Otherwise the new model holds: the key dictionary, with `prim_haloprop_key` taken from it and `sec_haloprop_key` set only when it has one; the galaxy types ordered by bound and the bound of each; the merged profile functions and one prefixed parameter key per function key; and the deduplicated publication list |
| HodFactory.MergeAsWrittenFailsOnSharedKey | halotools/empirical_models/hod_factory.py:192-200 | merging as written succeeds exactly when no two galaxy types offer the same key, and then equals the first-writer-wins merge. Otherwise it fails with the formatting TypeError |
| HodFactory.SharedProfFuncKeyRaises | halotools/empirical_models/hod_factory.py:192-200 | two galaxy types offering the same profile parameter function make the merge as written raise, where the intended merge keeps the first |
| HodFactory.SharedTableKeyRaises | halotools/empirical_models/hod_factory.py:240-248 | two galaxy types offering the same profile parameter table make the merge as written raise, where the intended merge keeps the first |

## Left out

- The pair-counting engines (`npairs_3d_engine`, the isolation engines and the rest) are not part of this model. Their sources are not available; only their re-export modules are.
- `halotools/mock_observables/wp.py` and `subhalo_mock_factory.py` are not part of this model: they are wrappers over unseen code and floating-point integration.
- Floating point: array values and the `value` searched for by `find_idx_nearest_val` are integers, although its documentation also allows a float, so NaN, infinities and rounding are not modelled. An infinite occupation bound would be an integer larger than every other bound. Fixed-width and unsigned NumPy integer types are not modelled either: the model's integers never wrap around. For example, `np.diff` on a uint8 array `[3, 2, 1]` gives `[255, 255]`, so the source's `array_is_monotonic` returns 1 where `ArrayIsMonotonic` gives -1; the subtraction in `find_idx_nearest_val` wraps the same way.
- The random draw of `randomly_downsample_data` (`NumpyRNGContext`, `np.random.random`) is an input, `randomizer`. Astropy `Table` inputs are not modelled.
- ArrayUtils.Argsort: NumPy's default sort is not stable and does not promise an order among equal values. The model's insertion argsort fixes that order: equal values keep their original order. Galaxy types with equal occupation bounds therefore stay in the blueprint's key order in HodFactory.HodModel.SetGalTypes and HodFactory.NewHodModel (`galTypes == GalTypesByBound(...)`). Which of two such galaxy types wins a shared key in the first-writer-wins merge of HodFactory.HodModel.SetHaloProfFuncDict, HodFactory.HodModel.SetProfParamTableDict and HodFactory.NewHodModel rests on that order too. The source does not promise these choices; `GalTypesByBoundOrders` states what holds for any argsort.
- HodFactory.HodModel.SetGalProfParams: the source builds `gal_prof_param_keys` in the key order of `halo_prof_func_dict`. The model keeps that dictionary as a `map`, which has no order, so the order of `gal_prof_param_keys` is left open; only its entries and their count are promised.
- ArrayUtils.FindIdxNearestVal and ArrayUtils.RandomlyDownsampleData: a `seq` stands for a NumPy array. Their documentation accepts any array-like, but both index the input with an integer array (array_utils.py:83 and :131), which raises TypeError for a plain Python list of two or more elements. That TypeError is not modelled, so their error conditions hold for NumPy array input only.
- ArrayUtils.UnsortingIndices: negative or wrapped NumPy indices are not modelled. The indices must lie in `0 .. n-1`, which holds for any output of `np.argsort`. Repeated indices are outside what the source promises: NumPy does not say which write wins in `unsorting_indices[sorting_indices] = ...`, while `Scatter` keeps the last one. This makes no difference for the permutations that `UnsortingInverts` and `UnsortRoundTrip` cover.
- ArrayUtils.ArrayIsMonotonic: `strict is True` means that a truthy non-boolean `strict` selects the non-strict test. The model takes a `bool`, so this case does not arise.
- `array_is_monotonic` on multi-dimensional arrays (where `np.diff` works along the last axis) is not modelled.
- Printing is left out: the message `return_haloprop_dict` prints for a feature without a primary key, and the `print` in `_set_haloprops`.
- The message of the secondary-key KeyError says "prim_haloprop" (hod_factory.py:458-460). The model keeps only the error kind, `DistinctSecHaloprop`.
- `occuhelp.enforce_required_haloprops` (hod_factory.py:69) is unseen code and is not part of this model.
- HodFactory.HodModel.SetHaloprops: when no secondary key is given, the source leaves `sec_haloprop_key` unassigned. The model keeps its previous value (`None` after construction).
- A blueprint entry missing its `'occupation'` or `'profile'` feature raises KeyError in the source. `GalTypeModels` always has both, so that KeyError is not modelled.
- `_set_init_param_dict` depends on the unseen `occuhelp.test_repeated_keys` and is left out of `NewHodModel`.
- The dynamic-method machinery is left out: `_set_primary_behaviors`, `gal_prof_param`, `mc_pos`, `component_behavior`, `retrieve_relevant_haloprops`, `build_inv_cumu_lookup_table` and `_create_convenience_attributes`. It is `setattr`/`getattr` dispatch to foreign component objects and float arithmetic.
- HodFactory.HodModel.SetProfParamTableDict: the errors `OverrideNotTuple(key)` and `OverrideWrongLength(key)` carry the offending key. That is the model's own addition: the source's TypeError messages do not report the key.
- HodFactory.HodModel.SetProfParamTableDict checks overrides as the source does:
  - `type(table) is not tuple` rejects tuple subclasses too; `PyValue.NonTuple` stands for any value whose type is not exactly `tuple`;
  - `len(table) is not 3` relies on CPython's small-integer caching and is modelled as `!= 3`.
- HodFactory.HodModel.SetHaloProfFuncDict, HodFactory.HodModel.SetProfParamTableDict and HodFactory.NewHodModel model the intended first-writer-wins merge, not the code as written, which raises on a repeated key (see Findings).
- The as-written merge (`MergeAsWritten`) returns only the error. It does not model the entries already merged before the TypeError.

## Findings

| source | as written | input that shows it | evidently intended | confidence | as-written member | corrected member |
|---|---|---|---|---|---|---|
| halotools/empirical_models/hod_factory.py:192-200 | `msg` is assigned only the first string literal, with one `%s`. The next three literals are separate statements, so `msg % (key, ignored, relevant, ignored, relevant, key)` raises TypeError (not all arguments converted) | a blueprint whose `centrals` and `satellites` profile models both offer the key `NFWmodel_conc`: `HodModel(blueprint)` raises on the second galaxy type | print a warning and keep the first galaxy type's function, as the docstring (lines 175-178) and the `else` branch say | not executed | HodFactory.SharedProfFuncKeyRaises | HodFactory.HodModel.SetHaloProfFuncDict |
| halotools/empirical_models/hod_factory.py:240-248 | the same unparenthesised multi-line message, formatted with six values, raises TypeError | `centrals` and `satellites` whose profile function dictionaries have no key in common, but whose table dictionaries both have `NFWmodel_conc`: construction succeeds, and on the constructed `HodModel`, `set_prof_param_table_dict()` raises at line 247 | print a warning and keep the first galaxy type's table | not executed | HodFactory.SharedTableKeyRaises | HodFactory.HodModel.SetProfParamTableDict |

`HodFactory.MergeAsWrittenFailsOnSharedKey` states the general form of both rows: the code as written works only when no key is shared. `HodFactory.FirstWriterMergeWins` proves the intended property for the corrected merge.
