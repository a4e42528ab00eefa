# colander core, modelled in Dafny

colander describes data with a tree of schema nodes. Each node has a type (Mapping, Tuple, Sequence, Integer, Boolean, …), an optional validator, an optional default, a name and ordered subnodes. `deserialize` turns loosely-typed input into checked values. `serialize` goes the other way. A failure is an `Invalid` exception. `Invalid`s form a tree that mirrors the schema, and `asdict()` flattens that tree into a report keyed by dotted paths.

This project models that core on Python 2 values:

- `values.dfy`: the value universe. It covers None, bool, int, str, list, tuple, dict and opaque objects, with the Python 2 behaviours the core relies on: which values have `__iter__` or `get`, truthiness, `str`, `repr`, `==`, ordering against None, and ASCII `lower()`.
- `decimal.dfy`: `str(int)`, and `int(str)` in base 10 (surrounding whitespace, a sign, whitespace after the sign).
- `dicts.dfy`: a dict as an association list with distinct keys. It covers `get`, `d[k] = v`, `pop`, `update`, and the `dict(value)` constructor with its error messages.
- `errors.dfy`: the `Invalid` tree, `add` and `paths()`. It has a method with the traversal's shared stack, proved equal to the path function.
- `report.dfy`: `_keyname()` and `asdict()`. It has a method with the nested loops, proved equal to a report function.
- `validators.dfy`: `All`, `Range`, `OneOf`. It has a method with the `All` loop.
- `types.dfy`, `scalars.dfy`: the type objects (with the Mapping constructor's check), plus Integer and Boolean.
- `schema.dfy`: `SchemaNode` (`required`, `add`, `deserialize`, `serialize`) and the `_validate`/`_impl` of Mapping, Tuple and Sequence. These are functions over the outcome of each child conversion: a value, an `Invalid`, or another exception.
- `engine.dfy`: the same conversions as methods with the source's loops. Each is proved equal to its function.
- `composites.dfy`, `mapping_laws.dfy`, `node_laws.dfy`, `roundtrip.dfy`: what the composite types, the unknown-key policies and `SchemaNode` promise. This includes `deserialize(serialize(v)) == v` for every value of the schema's shape that its validators accept.

`required` is `Schema.Required`: a node is required exactly when it has no default. Two sets of lemmas rest on it:

- `MappingLaws.MappingMissingOptional` shows that a missing subnode in a converted mapping was optional.
- `MappingLaws.MappingMissingRequired` shows that a missing required subnode always fails.

Where the code and its prose description differ, the model follows the code:

- The Tuple type's docstring offers to accept iterables that, converted to a tuple, have as many elements as the node has subnodes. Its `_validate` (colander/__init__.py:226-227) refuses every value without `__iter__`, and in Python 2 that includes every `str`. So `'ab'` is refused as not iterable by a node with two subnodes, although `tuple('ab')` has two elements (`Composites.TupleRefusesStr`).
- Three places where the code cannot do what it evidently means to are listed under Findings. For each, the model states the code as written, shows the input on which it goes wrong, and proves the intended behaviour of a corrected definition. The rest of the model uses the corrected definitions (see `Schema.TypeConvert` under Left out).

## Model

| member | source | states |
|---|---|---|
| Errors.Fresh | colander/__init__.py:21-25 | a new `Invalid` has no position and no children |
| Errors.Add | colander/__init__.py:27-31 | `add` keeps the earlier children in order and puts the new child last; message, name, type and position are unchanged |
| Errors.PathsShape | colander/__init__.py:33-47 | `paths()` gives exactly one path per childless failure, in depth-first order; each path starts at the root, goes from parent to child, and ends at its leaf |
| Errors.PathsAfterAdd | colander/__init__.py:27-47 | after `add`, the paths are the parent's earlier paths (none if it was a leaf) followed by the new child's paths, each under the parent |
| Errors.Traverse | colander/__init__.py:35-45 | the recursive traversal with a pushed-and-popped stack yields every path of the subtree, each prefixed by the stack it was called with |
| Errors.CollectPaths | colander/__init__.py:33-47 | `paths()` from an empty stack yields exactly the path list of `Errors.PathsShape` |
| Report.AsDict | colander/__init__.py:49-67 | `asdict()` built by its loops equals the report function. Key: the path's non-empty key names joined by `.`. A name is `str(pos)` under a positional parent, else the node name. Value: the truthy messages joined by `; `. A later path with the same key overwrites |
| Report.PathEntry | colander/__init__.py:59-66 | one path's entry built by its loop: the key names joined by `.` and the truthy messages joined by `; ` |
| Report.ReportKeys | colander/__init__.py:57-66 | every path's key is in the report, and every report key is some path's key |
| Report.ReportValue | colander/__init__.py:59-66 | a path whose key no later path repeats has its own joined messages as its value |
| Report.MessagesAgree | colander/__init__.py:62-63 | the messages as written are defined exactly when no truthy list message is met, and then they equal the corrected ones |
| Report.AsWrittenAgrees | colander/__init__.py:54-67 | when no path meets a list message, the as-written report equals the corrected report |
| Report.AsWrittenRaises | colander/__init__.py:63-66 | any path with a truthy list message makes the as-written `asdict()` raise |
| Report.AllMessageReport | colander/__init__.py:63-66 | a failure carrying the list an `All` validator raises makes the as-written `asdict()` raise; the corrected report maps its name to the texts joined by `; ` |
| Validators.Run | colander/__init__.py:69-117 | the validator call, with the loop of `All`, returns exactly the failure message the validator specification gives |
| Validators.RangeOnInt | colander/__init__.py:96-107 | on an int, `Range` passes iff the value is at least the given minimum and at most the given maximum (a missing bound does not constrain) |
| Validators.RangeMinFirst | colander/__init__.py:97-101 | a value below the minimum fails with the "less than minimum value" message, whatever the maximum |
| Validators.RangeOnOtherTypes | colander/__init__.py:96-107 | Python 2 ordering for a non-number: only None is below a minimum, and everything but None is above a maximum |
| Validators.OneOfChoices | colander/__init__.py:115-117 | `OneOf` passes for a value among the choices and fails for one equal to none of them |
| Validators.OneOfBoolAndInt | colander/__init__.py:116 | `True == 1` in Python 2, so `True` is accepted among `[1]` and `False` is not |
| Validators.FailingIndicesExact | colander/__init__.py:76-81 | the indices of the failing sub-validators, increasing, each failing, and none left out |
| Validators.AllPasses | colander/__init__.py:75-84 | `All` passes iff every sub-validator passes |
| Validators.AllMessages | colander/__init__.py:76-84 | a failing `All` raises one list message holding the failing sub-validators' messages, in their order |
| Types.MappingOf | colander/__init__.py:143-148 | the Mapping constructor accepts exactly `ignore`, `raise` and `preserve`, and keeps the policy it was given |
| Dicts.DictOf | colander/__init__.py:150-152 | `dict(value)` gives distinct keys; a dict is rebuilt from its pairs; it fails exactly when the value is not a dict and is not iterable or has an element that is not a pair |
| Dicts.UpdateLookup | colander/__init__.py:186 | after `update`, a key holds the update's value when the update has it, else its old value |
| Dicts.WithoutLookup | colander/__init__.py:163 | after `pop(k)`, `k` is absent and every other key keeps its value |
| Schema.AddNode | colander/__init__.py:607-609 | `SchemaNode.add` appends the subnode after the existing ones and changes nothing else, including whether the node is required |
| Schema.TupleValidate | colander/__init__.py:226-238 | an accepted tuple input has exactly one item per subnode |
| Schema.MappingValidate | colander/__init__.py:150-154 | an accepted mapping input is a dict with distinct keys |
| Composites.TupleRefuses | colander/__init__.py:226-236 | a non-iterable input, or one of the wrong length, fails before any element is converted, with a message-only failure for the tuple node |
| Composites.TupleRefusesStr | colander/__init__.py:221-227 | a `str` has no `__iter__`, so a tuple node refuses every string as not iterable, whatever its length |
| Composites.TupleConverts | colander/__init__.py:240-258 | a tuple converts iff every element converts under its subnode; the result has one element per subnode, in order |
| Composites.TupleFailures | colander/__init__.py:245-256 | when elements fail (and none raises another exception), the tuple raises one message-less failure holding each element failure tagged with its index, in order |
| Composites.SequenceScalar | colander/__init__.py:292-298 | a value that is not an iterable non-mapping is wrapped as `[x]` when scalars are accepted, else fails as not iterable |
| Composites.SequenceConverts | colander/__init__.py:300-317 | a sequence converts iff every item converts under the first subnode; output length and order match the input |
| Composites.SequenceFailures | colander/__init__.py:305-315 | failing items are collected under one message-less failure, each with its index as position, in order |
| Composites.SequenceWithoutSubnodes | colander/__init__.py:305-307 | without subnodes, any item makes `node.nodes[0]` raise IndexError, which is not an `Invalid` and escapes |
| Composites.FinishUncaught | colander/__init__.py:245-253 | only `Invalid` is caught: the first other exception from a child ends the conversion with that exception |
| Composites.FinishOk | colander/__init__.py:255-258 | the loop returns a value exactly when every child converted |
| Composites.Tagged | colander/__init__.py:249-253 | the collected child failures are exactly the failing children's failures, each given its index as position, in increasing order |
| MappingLaws.MappingCopies | colander/__init__.py:150-152 | `dict(value)` of a dict is a copy of its entries, so the conversion does not consume the caller's dict |
| MappingLaws.RemainingLookup | colander/__init__.py:161-163 | popping the subnode names leaves every other key with its input value, and no subnode name |
| MappingLaws.LeftoverEntries | colander/__init__.py:161-186 | the leftover entries are exactly the input's entries under keys that name no subnode |
| MappingLaws.MappingKeys | colander/__init__.py:155-191 | a converted mapping has exactly these keys: the name of every subnode, and under `preserve` every other key of the input |
| MappingLaws.MappingChildValue | colander/__init__.py:160-175 | with distinct names, a converted mapping holds under each subnode's name what that subnode made of the input's value, or of its absence |
| MappingLaws.MappingPresent | colander/__init__.py:174-175 | a present subnode's entry is `result[name] =` its conversion of the input value |
| MappingLaws.MappingMissingOptional | colander/__init__.py:166-171 | a missing subnode in a converted mapping has a default; the result holds the default when deserializing and the default's serialization when serializing |
| MappingLaws.MappingMissingRequired | colander/__init__.py:166-170 | a missing required subnode fails with "`'name'` is required but missing", positioned at its index under the mapping's message-less failure |
| MappingLaws.MappingCollects | colander/__init__.py:176-189 | unless `raise` finds unknown keys, all subnode failures are raised together after the loop, under one message-less failure, each at its position, in order |
| MappingLaws.MappingUncaught | colander/__init__.py:165-176 | an exception other than `Invalid` from a subnode escapes, before any unknown-key policy applies |
| MappingLaws.IgnoreDropsUnknown | colander/__init__.py:180-191 | under `ignore`, every key of the result names a subnode |
| MappingLaws.PreserveKeepsUnknown | colander/__init__.py:185-186 | under `preserve`, a key naming no subnode keeps the input's value in the result |
| MappingLaws.RaiseRejectsUnknown | colander/__init__.py:180-183 | under `raise`, unknown keys give one failure with the "Unrecognized keys in mapping" message and no children, replacing any subnode failures |
| MappingLaws.RaiseOk | colander/__init__.py:180-183 | under `raise`, a converted mapping had no key that names no subnode |
| MappingLaws.MappingExact | colander/__init__.py:155-191 | a dict holding exactly the subnodes' names, in order, whose entries all convert, converts to the converted values under the same keys, whatever the policy |
| NodeLaws.TypeConvertIgnoresValidator | colander/__init__.py:594-605 | a type's conversion does not depend on the node's validator |
| NodeLaws.SerializeIgnoresValidator | colander/__init__.py:602-605 | `serialize` never validates: it is the type's serialization, whatever validator the node carries |
| NodeLaws.DeserializeValidates | colander/__init__.py:594-600 | after the type converts, `deserialize` succeeds iff the validator accepts the value; a rejection is the validator's own failure (its message, no position, no children), not wrapped |
| NodeLaws.DeserializeWithoutValidation | colander/__init__.py:594-600 | without a validator, or when the type's conversion fails, `deserialize` is the type's conversion and the validator is never called |
| NodeLaws.DeserializePassing | colander/__init__.py:597-600 | a validator that accepts the value leaves the result as it would be without a validator |
| Scalars.IntegerAccepts | colander/__init__.py:369-379 | Integer accepts numbers and strings `int()` parses; deserialize and serialize accept the same inputs; a rejection is the "is not a number" failure |
| Scalars.IntegerRoundTrip | colander/__init__.py:369-379 | serializing an int gives its decimal text, and deserializing that text gives the int back |
| Scalars.IntegerSerializeStable | colander/__init__.py:375-377 | what Integer serializes deserializes to the same number, and re-serializing changes nothing |
| Scalars.IntegerAsWrittenAgrees | colander/__init__.py:369-379 | off tuples, both conversions as written agree with the corrected ones |
| Scalars.IntegerAsWrittenRaises | colander/__init__.py:373-379 | on a tuple whose length is not one, deserialize and serialize as written both raise TypeError, where the corrected ones reject the value as not a number |
| Scalars.IntegerAsWrittenEmptyTuple | colander/__init__.py:373 | on `()`, the as-written formatting raises TypeError instead of `Invalid` |
| Scalars.IntegerAsWrittenPair | colander/__init__.py:373 | on any pair, the as-written formatting raises TypeError instead of `Invalid` |
| Scalars.IntegerAsWrittenSingleton | colander/__init__.py:373 | on a 1-tuple, the as-written message shows the item, not the tuple |
| Scalars.BooleanFalseValues | colander/__init__.py:417-425 | Boolean deserializes to false exactly for `False`, `0`, and strings equal to `false` or `0` ignoring ASCII case |
| Scalars.BooleanRoundTrip | colander/__init__.py:417-428 | deserializing what Boolean serialized gives the value's truth value; for a bool, the bool itself |
| Scalars.BooleanStable | colander/__init__.py:417-428 | a deserialized bool survives serialize-then-deserialize |
| Decimal.Render | colander/__init__.py:377 | `str(i)` is an optional minus sign followed by decimal digits, and is `0` exactly for zero |
| Decimal.ParseRender | colander/__init__.py:371-377 | `int(str(i)) == i` for every int |
| Engine.DeserializeNode | colander/__init__.py:594-600 | the `deserialize` method returns exactly the outcome the conversion function specifies |
| Engine.SerializeNode | colander/__init__.py:602-605 | the `serialize` method returns exactly the outcome the conversion function specifies |
| Engine.TupleImpl | colander/__init__.py:240-258 | `Tuple._impl`'s loop computes exactly the tuple conversion function |
| Engine.SequenceImpl | colander/__init__.py:300-317 | `Sequence._impl`'s loop computes exactly the sequence conversion function |
| Engine.TupleItems | colander/__init__.py:242-258 | the loop over the subnodes ends in the outcome the gathered subnode outcomes specify: the first other exception, else the collected failure, else the tuple of values |
| Engine.SequenceItems | colander/__init__.py:302-317 | the loop over the items, each converted by the first subnode, ends in the outcome the gathered item outcomes specify; without subnodes the first item raises IndexError |
| Engine.ChildNode | colander/__init__.py:165-175 | one subnode step of `Mapping._impl` computes exactly the child outcome function |
| Engine.MappingTurn | colander/__init__.py:162-175 | one turn pops the subnode's key from what remains and keeps the loop invariant, or reports the other exception that ends the loop |
| Engine.MappingChildren | colander/__init__.py:158-175 | the pop loop leaves the entries no subnode named, assigns the converted values under the subnode names and collects the failures, as the gathered subnode outcomes specify |
| Engine.MappingImpl | colander/__init__.py:155-191 | `Mapping._impl`'s pop loop and policy tail compute exactly the mapping conversion function |
| RoundTrip.RoundTripLaw | colander/__init__.py:594-605 | for every value of a schema's shape that its validators accept (Integer, Boolean, Tuple, Sequence, Mapping, nested), serialize succeeds and deserialize gives the value back |
| RoundTrip.TupleRoundTrip | colander/__init__.py:240-268 | the round trip through a tuple node, element by element |
| RoundTrip.SequenceRoundTrip | colander/__init__.py:300-327 | the round trip through a sequence node, item by item |
| RoundTrip.MappingRoundTrip | colander/__init__.py:155-205 | the round trip through a mapping node, entry by entry |

## Left out

- `add` (of `Invalid` and of `SchemaNode`) is modelled on values: it returns the extended tree. The model does not capture update in place, the `parent` back-pointer, or aliasing of a subnode shared by two parents. A failure's parent is the failure whose children hold it.
- `asdict()` takes whether the failure itself hangs under a positional parent as a parameter, because the model has no back-pointer. `asdict()` is a function of the tree, so rendering twice gives the same report by construction. The shared stack of `paths()` is passed by value, so the pop is the return.
- Dicts keep insertion order, and `repr` of a dict lists entries in that order. CPython 2 uses hash order, so messages that print a dict may differ in entry order.
- Dict keys are compared structurally. `True` and `1` are distinct keys here, while in Python they collide. `OneOf` and `==` do follow Python (`True == 1`).
- `repr` does not escape quotes or control characters, and an object's repr is `<object>`. Unicode strings, `str()` failures and encodings are not modelled.
- Python 2's `int` and `long` are one unbounded `VInt`. A `long` prints here without its trailing `L`: one beyond `sys.maxint`, such as what `int('99999999999999999999')` returns, or an explicit long. This affects every message that shows a value with `%r` or `%s`: the Range, OneOf and Integer "not a number" messages, the Tuple length message and the "Unrecognized keys" message.
- `Range` bounds are ints. Float bounds and float values are not modelled.
- A validator is one of `All`, `Range` and `OneOf`, not an arbitrary callable. `OneOf`'s choices are modelled as a list only. With a tuple the source's message would print `(1, 2)`. With a string, `in` tests for a substring. With a dict, it tests the keys. The only exception other than `Invalid` that a node conversion raises here is IndexError (a Sequence without subnodes).
- Schema.TypeConvert: uses the corrected Integer conversions. As written (colander/__init__.py:373 and :379), an Integer node given a tuple whose length is not one raises TypeError. Mapping, Tuple and Sequence catch only `Invalid`, so that TypeError would escape every enclosing node. The node conversions here report an `Invalid` for that input instead, so they do not capture that escape.
- String, Float, GlobalObject, the Schema metaclass, SequenceSchema and TupleSchema, the creation-order counter, `copy` and `__repr__` are not part of this model.
- `MappingLaws.MappingChildValue`, `MappingLaws.MappingPresent` and `MappingLaws.MappingMissingOptional` assume distinct subnode names. With duplicate names the source pops the key for the first such subnode only, and the later one sees it missing. `Schema.MappingConvert` models that case, but no lemma describes it.
- `RoundTrip.RoundTripLaw` and its mapping case `RoundTrip.MappingRoundTrip` cover mapping values whose entries follow the subnodes' order, because dict equality here is order-sensitive. Other orders round-trip key by key (`MappingLaws.MappingChildValue`).

## Findings

| source | as written | input that shows it | evidently intended | confidence | as-written member | corrected member |
|---|---|---|---|---|---|---|
| colander/__init__.py:63-66 | `asdict()` appends each truthy `msg` and joins them with `'; '.join(msgs)`, but `All` raises `Invalid(node, msgs)` with a list as the message | a node with `validator=All(Range(min=5), Range(min=6))` deserializing 1: `asdict()` of the failure raises TypeError in `join` | the report lists the texts of the list message, joined like the others | not executed | Report.AsWrittenRaises | Report.AsDict |
| colander/__init__.py:373 | Integer builds its message with `'%r is not a number' % value`, which treats a tuple `value` as the format arguments | deserializing `()` or `(1, 2)` with an Integer node raises TypeError instead of `Invalid`; `('x',)` reports `'x'` instead of `('x',)` | the failure shows the repr of the whole value, as for every other input | not executed | Scalars.IntegerAsWrittenEmptyTuple | Scalars.IntegerAccepts |
| colander/__init__.py:379 | `Integer.serialize` builds its message with the same `'%r is not a number' % value` | serializing `()` or `(1, 2)` with an Integer node raises TypeError instead of `Invalid` | the failure shows the repr of the whole value | not executed | Scalars.IntegerAsWrittenRaises | Scalars.IntegerAccepts |
