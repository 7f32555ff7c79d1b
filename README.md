# Gohla.Shared collections and helpers, modelled in Dafny

This project models the collection types and small helpers of the
Gohla.Shared library and proves what they promise.

- **CompositeCollection** presents an ordered list of child observable
  collections as one concatenated sequence. It re-broadcasts each child's
  change event with the index shifted by the child's offset. The offset is
  the number of items in the children before that child. Adding or removing a
  whole child produces one synthetic event per item. The model keeps the
  source's quirks:
  - `IndexAt` indexes the list before checking the bound, so an absent child
    fails with an out-of-range error.
  - `RemoveCollection` gives every removed item the same index.
  - `RemoveCollection` calls the handler without a null check.
- **KeyedCollection** and **SynchronizedKeyedCollection** are ordered lists
  with one distinct key per item. Insert, RemoveAt and Clear each raise
  exactly one CollectionChanged event, and only when a handler is attached.
  Setting an item as written raises no event and fails after the set has
  taken effect (see "## Findings"), and ChangeItemKey raises no event. The
  synchronized variant sends each mutation through a synchronization context.
  Here that send is a direct call of the matching `Post*` method. `Dispose`
  drops the handler. An item's key is its `key` field (`GetKeyForItem`
  returns `item.Key`).
- **MultiValueDictionary** maps each key to a list of values. The lists are
  updated in place.
- **TimeSpanExtension.ToReadableString**, **EnumerableToString.ToString**,
  the **IEnumerableExtensions** helpers and **ObservableProperty** are the
  remaining small pieces.

Mutable objects are Dafny classes. The events handed to handlers and the
values pushed to observers are append-only logs. Thrown exceptions become
`Err`/`Fail` values of `Results.Error`. Change events carry the fields of
.NET's `NotifyCollectionChangedEventArgs`. `CollectionEvents.Apply` gives
their meaning: the list an event turns the old list into. Most consistency
lemmas rest on it.

The IEnumerableExtensions class exists twice: `IEnumerableExtensions.cs` in
the global namespace and `Gohla.Shared/IEnumerableExtensions.cs`. Their `Do`,
`Evaluate` and `IsEmpty` bodies are identical, so both files are modelled by
the single module `EnumerableExtensions`.

## Model

| member | source | states |
|---|---|---|
| CollectionEvents.ItemArgs | GenericKeyedCollection.cs:46-65 | the single-item event constructor accepts exactly Add and Remove; any other action is an Argument error |
| CollectionEvents.ListArgs | Gohla.Shared/CompositeCollection.cs:148-149 | the item-list constructor accepts exactly Add and Remove, with the index as the starting index |
| CollectionEvents.ReplaceArgs | Gohla.Shared/CompositeCollection.cs:157-159 | the two-list constructor accepts exactly Replace (Move is refused) and yields a Replace event at the index |
| CollectionEvents.ResetArgs | Gohla.Shared/CompositeCollection.cs:161-162 | the action-only constructor yields a Reset carrying no items |
| ListOps.FirstIndex | Gohla.Shared/MultiValueDictionary.cs:147 | the position of the first equal element: it holds the element and no earlier position does |
| ListOps.RemoveFirst | Gohla.Shared/CompositeCollection.cs:87 | List.Remove deletes exactly the first occurrence and keeps the rest in order |
| CompositeSpec.OffsetEnd | Gohla.Shared/CompositeCollection.cs:120-125 | the offset past the last child equals the length of the concatenation |
| CompositeSpec.FlattenAt | Gohla.Shared/CompositeCollection.cs:91-107 | item j of child k sits at global index offset(k) + j of the concatenation |
| CompositeSpec.OffsetMonotone | Gohla.Shared/CompositeCollection.cs:109-117 | offsets never decrease along the child list and never exceed the total count |
| CompositeSpec.FlattenAppend | Gohla.Shared/CompositeCollection.cs:120-125 | enumerating two child lists in a row enumerates the first, then the second |
| CompositeSpec.AddBlockInserts | Gohla.Shared/CompositeCollection.cs:61-72 | one Add per item at offset, offset+1, ... inserts the items at the offset |
| CompositeSpec.RemoveBlockDeletes | Gohla.Shared/CompositeCollection.cs:77-85 | one Remove per item, all at the same offset, deletes exactly that block |
| CompositeSpec.AddCollectionSplices | Gohla.Shared/CompositeCollection.cs:53-73 | the Add events for a child appended at the end turn the old concatenation into the new one |
| CompositeSpec.RemoveCollectionSplices | Gohla.Shared/CompositeCollection.cs:75-89 | the Remove events for child k turn the concatenation into that of the other children |
| CompositeSpec.Translate | Gohla.Shared/CompositeCollection.cs:141-163 | Add forwards only the first new item, and Add, Remove and Replace are shifted by the offset; Reset becomes a bare Reset; Move is refused; an Add with no items fails |
| CompositeSpec.TranslateSplices | Gohla.Shared/CompositeCollection.cs:134-163 | a child's event, once translated, changes the concatenation exactly as the original changed that child |
| CompositeCollections.RemoveChildConsistent | Gohla.Shared/CompositeCollection.cs:75-89 | RemoveCollection's events, applied to the old concatenation, give the concatenation without the first occurrence of the child |
| CompositeCollections.CompositeCollection.constructor | Gohla.Shared/CompositeCollection.cs:17-29 | both constructors keep the given children in order, with no handler and nothing emitted |
| CompositeCollections.CompositeCollection.AddHandler | Gohla.Shared/CompositeCollection.cs:15 | attaching a CollectionChanged handler changes nothing else |
| CompositeCollections.CompositeCollection.IndexAt | Gohla.Shared/CompositeCollection.cs:109-117 | a present child gives the sum of the counts before its first occurrence; an absent child fails with ArgumentOutOfRange |
| CompositeCollections.CompositeCollection.CollectionAt | Gohla.Shared/CompositeCollection.cs:91-107 | for 0 <= index < total, a child holding that position with offset + newIndex == index and newIndex inside the child; past the end, null and -1; a negative index gives the first child |
| CompositeCollections.CompositeCollection.AddCollection | Gohla.Shared/CompositeCollection.cs:53-73 | always appends; with a handler, one Add per item in item order from the child's first offset; when the child was not already listed, those events turn the old sequence into the new one |
| CompositeCollections.CompositeCollection.RemoveCollection | Gohla.Shared/CompositeCollection.cs:75-89 | an absent child fails with ArgumentOutOfRange; with no handler and a non-empty child it fails with NullReference before removing; otherwise one Remove per item at the same offset, then the first occurrence goes |
| CompositeCollections.CompositeCollection.CollectionChange | Gohla.Shared/CompositeCollection.cs:134-165 | with no handler nothing is emitted; otherwise exactly the translated event is emitted, shifted by the sender's offset |
| CompositeCollections.CompositeCollection.GetEnumerator | Gohla.Shared/CompositeCollection.cs:120-125 | enumeration yields the concatenation of the children's items, children in list order |
| CompositeCollections.CompositeCollection.Dispose | Gohla.Shared/CompositeCollection.cs:31-38 | disposes the Follow subscriptions only; children, handler and log are unchanged; a second call does nothing |
| CompositeCollections.CompositeCollection.Follow | Gohla.Shared/CompositeCollection.cs:47-51 | adds one live source subscription; after Dispose it fails with NullReference, yet the added-items subscription made while evaluating the argument stays attached and is never disposed |
| CompositeCollections.CompositeCollection.FollowedAdded | Gohla.Shared/CompositeCollection.cs:49 | an item added to a followed source, through a live or a leaked subscription, is added as a child, as AddCollection does |
| CompositeCollections.CompositeCollection.FollowedRemoved | Gohla.Shared/CompositeCollection.cs:50 | an item removed from a followed source removes its child, as RemoveCollection does: ArgumentOutOfRange for an absent child, NullReference with nothing removed for a non-empty child and no handler, otherwise the same-offset Remove block and the first occurrence removed |
| CompositeCollections.CompositeCollection.CopyAndFollow | Gohla.Shared/CompositeCollection.cs:40-45 | one child per source item, in source order, then Follow; with a handler and new distinct children, the emitted events turn the old sequence into the new one |
| KeyedSpec.KeyCount | GenericKeyedCollection.cs:14-28 | with distinct keys, there are exactly as many keys and as many values as items |
| KeyedSpec.Inserted | GenericKeyedCollection.cs:49-53 | the base insert: the index must be in [0, Count], then the key must be new; the result is the Add event applied, with the key set extended and keys still distinct |
| KeyedSpec.Replaced | GenericKeyedCollection.cs:43-47 | the base set: the index must be in range, and a changed key must be new; the result is the Replace of the old item applied, with keys still distinct |
| KeyedSpec.RemovedAt | GenericKeyedCollection.cs:61-66 | the base remove fails exactly for an index out of range; otherwise it is the Remove event applied and the item's key is gone |
| KeyedSpec.Rekeyed | Gohla.Shared/SynchronizedGenericKeyedCollection.cs:47-50 | the base ChangeItemKey: an absent item is an error, a taken key is DuplicateKey, an equal key changes nothing; only that item's key changes |
| KeyedSpec.InsertThenRemove | GenericKeyedCollection.cs:49-66 | removing at the index just inserted at restores the collection |
| KeyedSpec.ReplaceThenRestore | GenericKeyedCollection.cs:43-47 | setting back the displaced item restores the collection |
| KeyedSpec.RekeyRoundTrip | Gohla.Shared/SynchronizedGenericKeyedCollection.cs:47-50 | changing a key and changing it back restores the collection |
| KeyedCollections.KeyedCollection.constructor | GenericKeyedCollection.cs:32-36 | starts empty with no handler and nothing raised |
| KeyedCollections.KeyedCollection.AddHandler | GenericKeyedCollection.cs:30 | attaching a handler changes nothing else |
| KeyedCollections.KeyedCollection.Keys | GenericKeyedCollection.cs:14-20 | one distinct key per item, and every key is an item's key |
| KeyedCollections.KeyedCollection.Values | GenericKeyedCollection.cs:22-28 | exactly the items, one value per item |
| KeyedCollections.KeyedCollection.OnCollectionChanged | GenericKeyedCollection.cs:68-72 | the event reaches the log only when a handler is attached |
| KeyedCollections.KeyedCollection.Insert | GenericKeyedCollection.cs:49-53 | the base insert, then exactly one Add(item, index) if there is a handler; a failed insert raises nothing |
| KeyedCollections.KeyedCollection.SetItemAsWritten | GenericKeyedCollection.cs:43-47 | the base set takes effect, then building the event fails with Argument and nothing is raised |
| KeyedCollections.KeyedCollection.SetItem | GenericKeyedCollection.cs:43-47 | corrected: the base set, then one Replace carrying the new item, the displaced item and the index |
| KeyedCollections.KeyedCollection.RemoveAt | GenericKeyedCollection.cs:61-66 | the item is read first, then removed, then one Remove(item, index) is raised |
| KeyedCollections.KeyedCollection.Clear | GenericKeyedCollection.cs:55-59 | everything goes and exactly one Reset is raised, with no per-item events |
| SynchronizedKeyedCollections.SynchronizedKeyedCollection.constructor | Gohla.Shared/SynchronizedGenericKeyedCollection.cs:33-37 | starts empty with no handler and nothing raised |
| SynchronizedKeyedCollections.SynchronizedKeyedCollection.AddHandler | Gohla.Shared/SynchronizedGenericKeyedCollection.cs:31 | attaching a handler changes nothing else |
| SynchronizedKeyedCollections.SynchronizedKeyedCollection.Keys | Gohla.Shared/SynchronizedGenericKeyedCollection.cs:15-21 | one distinct key per item, and every key is an item's key |
| SynchronizedKeyedCollections.SynchronizedKeyedCollection.Values | Gohla.Shared/SynchronizedGenericKeyedCollection.cs:23-29 | exactly the items, one value per item |
| SynchronizedKeyedCollections.SynchronizedKeyedCollection.Dispose | Gohla.Shared/SynchronizedGenericKeyedCollection.cs:39-45 | afterwards there is no handler; contents and log are unchanged; a second call does nothing |
| SynchronizedKeyedCollections.SynchronizedKeyedCollection.ChangeItemKey | Gohla.Shared/SynchronizedGenericKeyedCollection.cs:47-50 | delegates to the base re-keying and raises no event |
| SynchronizedKeyedCollections.SynchronizedKeyedCollection.OnCollectionChanged | Gohla.Shared/SynchronizedGenericKeyedCollection.cs:107-111 | the event reaches the log only when a handler is attached |
| SynchronizedKeyedCollections.SynchronizedKeyedCollection.PostInsertItem | Gohla.Shared/SynchronizedGenericKeyedCollection.cs:75-81 | inserts, then raises Add(item, index); a failed insert raises nothing |
| SynchronizedKeyedCollections.SynchronizedKeyedCollection.Insert | Gohla.Shared/SynchronizedGenericKeyedCollection.cs:70-73 | the sent PostInsertItem: the same contents and events as the plain keyed collection |
| SynchronizedKeyedCollections.SynchronizedKeyedCollection.PostSetItemAsWritten | Gohla.Shared/SynchronizedGenericKeyedCollection.cs:62-68 | the base set takes effect, then building the event fails with Argument and nothing is raised |
| SynchronizedKeyedCollections.SynchronizedKeyedCollection.PostSetItem | Gohla.Shared/SynchronizedGenericKeyedCollection.cs:62-68 | corrected: sets, then raises one Replace carrying the new item, the displaced item and the index |
| SynchronizedKeyedCollections.SynchronizedKeyedCollection.SetItem | Gohla.Shared/SynchronizedGenericKeyedCollection.cs:57-60 | corrected: the sent PostSetItem, with the same contents and events as the corrected plain keyed collection |
| SynchronizedKeyedCollections.SynchronizedKeyedCollection.PostRemoveItem | Gohla.Shared/SynchronizedGenericKeyedCollection.cs:99-105 | reads the item before removing, then raises Remove(item, index) |
| SynchronizedKeyedCollections.SynchronizedKeyedCollection.RemoveAt | Gohla.Shared/SynchronizedGenericKeyedCollection.cs:94-97 | the sent PostRemoveItem: the same contents and events as the plain keyed collection |
| SynchronizedKeyedCollections.SynchronizedKeyedCollection.PostClearItems | Gohla.Shared/SynchronizedGenericKeyedCollection.cs:88-92 | empties the collection and raises one Reset |
| SynchronizedKeyedCollections.SynchronizedKeyedCollection.Clear | Gohla.Shared/SynchronizedGenericKeyedCollection.cs:83-86 | the sent PostClearItems: the same contents and events as the plain keyed collection |
| MultiValueDictionaries.ValuesOfAppend | Gohla.Shared/MultiValueDictionary.cs:49-55 | the flattening over two runs of keys is the two flattenings in a row |
| MultiValueDictionaries.PairsProjectToValues | Gohla.Shared/MultiValueDictionary.cs:151-160 | the enumerated pairs project onto Values, and each pair is a key with one of its own values |
| MultiValueDictionaries.ValuesOfUpdate | Gohla.Shared/MultiValueDictionary.cs:111-114 | replacing one key's list replaces exactly that block of Values; the other keys are unchanged |
| MultiValueDictionaries.ValuesOfNewKey | Gohla.Shared/MultiValueDictionary.cs:84-89 | a new key's list is appended at the end of Values |
| MultiValueDictionaries.ValuesOfRemoveKey | Gohla.Shared/MultiValueDictionary.cs:138-141 | removing a key removes exactly its block of Values |
| MultiValueDictionaries.ValuesOfRemoveValue | Gohla.Shared/MultiValueDictionary.cs:143-149 | removing one value from a key's list removes one copy of it from Values |
| MultiValueDictionaries.MultiValueDictionary.constructor | Gohla.Shared/MultiValueDictionary.cs:11-14 | starts with no keys |
| MultiValueDictionaries.MultiValueDictionary.Copy | Gohla.Shared/MultiValueDictionary.cs:16-19 | copies the given dictionary's keys and lists |
| MultiValueDictionaries.MultiValueDictionary.ContainsKey | Gohla.Shared/MultiValueDictionary.cs:116-119 | true exactly for a stored key |
| MultiValueDictionaries.MultiValueDictionary.Get | Gohla.Shared/MultiValueDictionary.cs:65-75 | the key's list, or an empty sequence for an absent key; it never fails |
| MultiValueDictionaries.MultiValueDictionary.TryGetValue | Gohla.Shared/MultiValueDictionary.cs:130-136 | true with the list for a stored key; false with null otherwise |
| MultiValueDictionaries.MultiValueDictionary.Keys | Gohla.Shared/MultiValueDictionary.cs:41-47 | every stored key exactly once |
| MultiValueDictionaries.MultiValueDictionary.Values | Gohla.Shared/MultiValueDictionary.cs:49-55 | the flattening of all lists; every value belongs to some key's list |
| MultiValueDictionaries.MultiValueDictionary.UniqueValues | Gohla.Shared/MultiValueDictionary.cs:57-63 | one list per key, in key order |
| MultiValueDictionaries.MultiValueDictionary.Add | Gohla.Shared/MultiValueDictionary.cs:77-90 | appends the value to the key's list, creating a one-element list for a new key; Values gains exactly that value |
| MultiValueDictionaries.MultiValueDictionary.AddValues | Gohla.Shared/MultiValueDictionary.cs:92-104 | appends all values in order, creating the list even when it stays empty; null values fail with ArgumentNull and change nothing |
| MultiValueDictionaries.MultiValueDictionary.AddPair | Gohla.Shared/MultiValueDictionary.cs:106-109 | the same as Add(pair.Key, pair.Value) |
| MultiValueDictionaries.MultiValueDictionary.Set | Gohla.Shared/MultiValueDictionary.cs:111-114 | replaces the key's list wholesale and leaves the other keys unchanged |
| MultiValueDictionaries.MultiValueDictionary.Remove | Gohla.Shared/MultiValueDictionary.cs:138-141 | deletes the whole entry and returns whether it existed |
| MultiValueDictionaries.MultiValueDictionary.RemoveValue | Gohla.Shared/MultiValueDictionary.cs:143-149 | removes only the first equal value; false when the key or the value is absent; the key stays even when its list empties |
| MultiValueDictionaries.MultiValueDictionary.GetEnumerator | Gohla.Shared/MultiValueDictionary.cs:151-160 | one (key, value) pair per stored value, key by key, values in list order; the values are exactly Values |
| TimeSpans.Quot | Gohla.Shared/TimeSpanExtension.cs:19-29 | C#'s integer division truncates toward zero |
| TimeSpans.Rem | Gohla.Shared/TimeSpanExtension.cs:19-29 | C#'s remainder takes the sign of the dividend and rebuilds it with the quotient |
| TimeSpans.ComponentsOfNonNegative | Gohla.Shared/TimeSpanExtension.cs:19-29 | for a non-negative span, the days, hours, minutes and seconds are in range and add up to the whole seconds |
| TimeSpans.NonPositiveComponents | Gohla.Shared/TimeSpanExtension.cs:19-29 | a span that is not positive has no positive component |
| TimeSpans.DigitsRoundTrip | Gohla.Shared/TimeSpanExtension.cs:26-29 | reading back a "{0:0}" number gives the number |
| TimeSpans.ToReadableString | Gohla.Shared/TimeSpanExtension.cs:17-35 | as written: past the "now" and "∞" guards the text is the positive components joined with ", ", ending with the seconds |
| TimeSpans.TrimmedFormatted | Gohla.Shared/TimeSpanExtension.cs:25-32 | for a span of at least one second, the formatted and trimmed text is the join of the positive components, and there is at least one |
| TimeSpans.ToReadableStringIntended | Gohla.Shared/TimeSpanExtension.cs:17-35 | corrected: past the guards the text is the join of the positive components, and there is at least one |
| TimeSpans.NowIff | Gohla.Shared/TimeSpanExtension.cs:19-20 | "now" exactly when the seconds component is <= 0, whatever the days, hours or minutes |
| TimeSpans.InfinityIff | Gohla.Shared/TimeSpanExtension.cs:22-23 | "∞" exactly when the seconds are positive and the days exceed 365; the "now" test comes first |
| TimeSpans.ReadableFormatted | Gohla.Shared/TimeSpanExtension.cs:25-34 | otherwise "Nd, ", "Nh, ", "Nm, " for each positive component in that order, then "Ns"; the trim never fires and the result never ends in ", " |
| TimeSpans.NonPositiveIsNow | Gohla.Shared/TimeSpanExtension.cs:19-20 | a zero or negative span is "now" |
| TimeSpans.ReadableRoundTrip | Gohla.Shared/TimeSpanExtension.cs:25-34 | reading the result back recovers exactly the positive components and their units |
| TimeSpans.OneHourIsNow | Gohla.Shared/TimeSpanExtension.cs:19-20 | exactly one hour is shown as "now" |
| TimeSpans.IntendedNowIff | Gohla.Shared/TimeSpanExtension.cs:19-20 | corrected: "now" exactly for spans shorter than one second |
| TimeSpans.IntendedFormatted | Gohla.Shared/TimeSpanExtension.cs:25-34 | corrected: at least one component is listed and the trim removes any dangling separator |
| TimeSpans.IntendedRoundTrip | Gohla.Shared/TimeSpanExtension.cs:25-34 | corrected: reading the result back recovers the positive components |
| TimeSpans.OneHourIntended | Gohla.Shared/TimeSpanExtension.cs:25-34 | corrected: one hour is shown as "1h" |
| EnumerableToStrings.ToStringTyped | Gohla.Shared/EnumerableToString.cs:22-37 | a null source, then a null or empty separator, fail with Argument; otherwise the join of the non-null elements' texts |
| EnumerableToStrings.CastToObject | Gohla.Shared/EnumerableToString.cs:47-48 | the cast to object keeps every element and which elements are null |
| EnumerableToStrings.ToStringUntyped | Gohla.Shared/EnumerableToString.cs:39-55 | a null source, then a null or empty separator, fail with Argument, and otherwise the call succeeds; its text is given by OverloadsAgree |
| EnumerableToStrings.OverloadsAgree | Gohla.Shared/EnumerableToString.cs:39-55 | the non-generic overload gives the same result as the generic one, errors included |
| EnumerableToStrings.NonNullAppend | Gohla.Shared/EnumerableToString.cs:30-34 | the null filter keeps order: filtering a concatenation filters each part |
| EnumerableToStrings.NonNullKeepsValues | Gohla.Shared/EnumerableToString.cs:30-34 | the filter keeps exactly the non-null elements' values |
| EnumerableToStrings.NonNullAllPresent | Gohla.Shared/EnumerableToString.cs:30-34 | with no nulls, every element is kept in place |
| EnumerableToStrings.NonNullAllAbsent | Gohla.Shared/EnumerableToString.cs:30-34 | with only nulls, nothing is kept |
| EnumerableToStrings.TypedSkipsNulls | Gohla.Shared/EnumerableToString.cs:22-37 | all-null elements give the empty string; null-free elements give the join of every element's text |
| EnumerableToStrings.JoinAppend | Gohla.Shared/EnumerableToString.cs:36 | joining two non-empty lists puts exactly one separator between them |
| EnumerableToStrings.JoinLength | Gohla.Shared/EnumerableToString.cs:36 | the join holds every part and one separator between each neighbouring pair |
| EnumerableToStrings.JoinEnds | Gohla.Shared/EnumerableToString.cs:36 | there is no leading or trailing separator: the join starts with the first part and ends with the last |
| EnumerableExtensions.FoldLeftAppend | Gohla.Shared/IEnumerableExtensions.cs:13-14 | running the action over a concatenation runs it over the first part, then the second |
| EnumerableExtensions.FoldLeftRecords | Gohla.Shared/IEnumerableExtensions.cs:13-14 | with a recording action, the calls are the elements, once each and in order |
| EnumerableExtensions.Do | Gohla.Shared/IEnumerableExtensions.cs:8-15 | a null sequence fails with ArgumentNull; otherwise the action runs on each element in order; IEnumerableExtensions.cs lines 10-17 hold the same body |
| EnumerableExtensions.Evaluate | Gohla.Shared/IEnumerableExtensions.cs:17-24 | a null sequence fails with ArgumentNull; otherwise every element is walked and nothing else happens; IEnumerableExtensions.cs lines 19-26 hold the same body |
| EnumerableExtensions.As | Gohla.Shared/IEnumerableExtensions.cs:26-31 | exactly one output per input, in order: the element converted by the type test when it is an R, null otherwise; a null sequence fails with NullReference |
| EnumerableExtensions.AsRecoversUpcasts | Gohla.Shared/IEnumerableExtensions.cs:26-31 | casting back Rs viewed as their base type recovers them all, in order |
| EnumerableExtensions.AsAppend | Gohla.Shared/IEnumerableExtensions.cs:26-31 | the conversion works element by element: converting a concatenation converts each part |
| EnumerableExtensions.AsEnumerable | Gohla.Shared/IEnumerableExtensions.cs:33-36 | a one-element sequence holding the item |
| EnumerableExtensions.AsEnumerableSingle | Gohla.Shared/IEnumerableExtensions.cs:33-36 | the one-element sequence is never empty, and Do over it calls the action exactly once, on the item |
| EnumerableExtensions.IsEmpty | Gohla.Shared/IEnumerableExtensions.cs:38-52 | a null sequence fails with ArgumentNull; whichever of the three branches runs, the answer is true exactly for no elements; IEnumerableExtensions.cs lines 28-42 hold the same body |
| ObservableProperties.ObservableProperty.constructor | Gohla.Shared/ObservableProperty.cs:24-28 | stores the initial value and pushes nothing |
| ObservableProperties.ObservableProperty.Value | Gohla.Shared/ObservableProperty.cs:13-16 | the most recently assigned value, or the initial one |
| ObservableProperties.ObservableProperty.SetValue | Gohla.Shared/ObservableProperty.cs:17-21 | stores the value and pushes exactly that value once |
| ObservableProperties.Convert | Gohla.Shared/ObservableProperty.cs:35-38 | the implicit conversion gives the property's Value |

## Left out

- Thread marshaling: `SynchronizationContext.Send`, with its blocking and thread affinity, is treated as an immediate call.
- Rx plumbing: `CompositeDisposable` and the source's `AddedItems`/`RemovedItems` streams are not modelled. They become a count of live Follow subscriptions, a count of leaked added-items subscriptions, and the handler methods they call.
- The `IObservable` overload of `EnumerableToString.ToString` is not modelled. It is the same join applied to each value of a stream.
- ObservableProperty.Subscribe and the Rx `Subject` are not modelled. Observers are represented by the log of pushed values.
- Laziness: `GetEnumerator`, `As`, `Values` and `UniqueValues` return finished sequences rather than deferred iterators. `EnumerableExtensions.As` fails on a null source at once. In the source, that NullReferenceException comes only when the result is first enumerated.
- Runtime type tests are given functions: the `as R` conversion is a `cast` parameter, and `ICollection` probing is a `Capability` value. Element `ToString()` is a `show` parameter, so a text that is itself null is not modelled.
- EnumerableExtensions.IsEmpty assumes that a collection's `Count` equals the number of elements it enumerates.
- EnumerableExtensions.Do models the action as a state transformer. An action that throws, or that mutates the sequence being walked, is not modelled.
- KeyedCollections.KeyedCollection.Keys returns the key set, not the base dictionary's enumeration order. The same holds for `Values` and for the synchronized collection. The order of `Dictionary.Keys` is an implementation detail of .NET.
- The base `KeyedCollection` internals are modelled as a sequence plus a distinct-key invariant:
  - lazy dictionary creation is left out. In the source, `Keys` on a collection that never held an item dereferences a null dictionary;
  - null items and null keys are left out.
- KeyedSpec.Rekeyed rewrites the stored item's key. In .NET, `ChangeItemKey` is called before the item's `Key` property changes: it finds the item under its current key, files it under the new key, drops the old one, and leaves updating `Key` itself to the caller. Items here are values that carry their key, so the model writes the new key into the stored item, standing for that later update.
- MultiValueDictionaries.MultiValueDictionary.Keys uses insertion order, and `Remove` closes the gap. .NET's `Dictionary` reuses a freed slot for the next new key, so after a removal its enumeration order can differ.
- MultiValueDictionary list aliasing is not modelled: lists are values.
  - `Set` in the source stores the caller's list object, so the caller's later changes show through.
  - `Get` and `TryGetValue` hand out the live list.
  - `Set` with a null list is not modelled either.
- The MultiValueDictionary constructors that take an equality comparer or a capacity are not modelled. Keys use Dafny equality, and capacity has no observable effect.
- CompositeCollection child-handler bookkeeping (`+=` and `-=` on each child) is implied by the child list: every listed child forwards its events. A child listed twice is subscribed twice in the source and would forward each event twice. `CollectionChange` models one delivery.
- The Move branch of `CollectionChange` is excluded by conditional compilation on one platform. Elsewhere it builds a Replace-style event that .NET refuses for Move, so it is modelled as an Argument error.
- CompositeCollections.CompositeCollection.AddCollection does not model a null child, and neither do the constructors: children are non-null objects here. In the source, `AddCollection(null)` appends the null and then throws a NullReferenceException when subscribing to it, leaving the null in the list so that later counting, `IndexAt` and enumeration throw; a constructor given a null entry throws while subscribing.
- CompositeCollections.CompositeCollection.AddCollection proves that its events describe the change only for a child that was not already listed. Re-adding a listed child appends it at the end, but the source announces its items at the first occurrence's offset: with children [1] and [2], re-adding the first gives events that turn [1, 2] into [1, 1, 2], while the new concatenation is [1, 2, 1].
- CompositeCollections.CompositeCollection.Follow after Dispose assumes that subscribing to the source's added items attaches at once. The `AddedItems` extension is not part of this model, so its subscription timing is taken from the usual Rx behaviour.
- CompositeCollections.CompositeCollection.CopyAndFollow proves consistency of the emitted events only when the converted children are new and distinct. With repeated children the source emits events at the first occurrence's offset, and they do not describe the change.
- TimeSpans.TimeSpan ticks are unbounded integers. The 64-bit range of .NET ticks is not enforced, and within that range the components are the same.

## Findings

| source | as written | input that shows it | evidently intended | confidence | as-written member | corrected member |
|---|---|---|---|---|---|---|
| GenericKeyedCollection.cs:43-47 | raises Replace through the (action, item, index) event constructor, which accepts only Add and Remove, so the set is applied and then an ArgumentException escapes with no event | `this[0] = x` on a one-item collection | one Replace event carrying the new item, the displaced item and the index | not executed | KeyedCollections.KeyedCollection.SetItemAsWritten | KeyedCollections.KeyedCollection.SetItem |
| Gohla.Shared/SynchronizedGenericKeyedCollection.cs:62-68 | the same constructor call in PostSetItem: the base set happens, then the ArgumentException escapes with no event | `this[0] = x` on a one-item collection | one Replace event carrying the new item, the displaced item and the index | not executed | SynchronizedKeyedCollections.SynchronizedKeyedCollection.PostSetItemAsWritten | SynchronizedKeyedCollections.SynchronizedKeyedCollection.PostSetItem |
| Gohla.Shared/TimeSpanExtension.cs:19-20 | the "now" guard tests the seconds component only, so any span with 0 in its seconds place is "now", and the trailing-", " trim can never fire | a span of exactly one hour gives "now" | "now" only for spans shorter than one second, "1h" for one hour | not executed | TimeSpans.OneHourIsNow | TimeSpans.IntendedNowIff |
