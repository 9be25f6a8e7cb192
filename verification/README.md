# DestinationsPlugin: a verified model of the random vacation-destination picker

The sample agent script registers one plugin, `DestinationsPlugin`, with a
chat-completion agent. The plugin holds a fixed catalog of ten vacation
destinations and remembers the last one it handed out. Each call of
`get_random_destination` copies the catalog and removes the previous pick from
the copy, but only when a previous pick exists and the catalog has more than
one entry. It then chooses one remaining entry at random, records it as the
new last destination and returns it.

The model has three modules:

- `Wrappers` (`wrappers.dfy`): the `Option` type, used for Python's
  `None`-or-value field and for a library call that can raise.
- `Lists` (`lists.dfy`): Python's `list.remove` over sequences. It deletes the
  first occurrence only. It raises `ValueError` when the value is absent, and
  the model returns `None` in that case.
- `Destinations` (`destinations.dfy`): the catalog, the pure description of
  the eligible entries (`Eligible`), and the class `DestinationsPlugin`. The
  class has the fields `destinations` and `lastDestination`. Its method
  `GetRandomDestination` updates `lastDestination` in place (`modifies
  this`lastDestination`). `random.choice` is a nondeterministic choice of an
  index (`:|`), so every contract holds for every possible choice.

`if self.last_destination` is a Python truthiness test. `Truthy` models it
exactly: `None` and `""` are false. The class invariant `Valid()` says four
things:

- the catalog is non-empty;
- the catalog has no duplicates;
- every entry is a non-empty string;
- the last pick, if any, is a catalog entry.

Under this invariant, truthiness means "is set" (`TruthyIsSet`), and the
`remove` never raises. Because the catalog has no duplicates, removing the
first occurrence removes the value altogether (`RemoveFirstDistinct`). That is
why a pick never repeats the previous one. `IsRun` describes any sequence of
answers from consecutive calls. The run lemmas prove the no-repeat and
membership guarantees for runs of every length.

## Model

| member | source | states |
|---|---|---|
| `Lists.IndexOf` | Modified/step5A_chat_completion_agent_plugin_with_kernel.py:59 | `remove` finds its victim: there is no index exactly when the value is absent; otherwise the index holds the value and no earlier position does |
| `Lists.RemoveFirst` | Modified/step5A_chat_completion_agent_plugin_with_kernel.py:59 | `remove` succeeds exactly when the value is present; the result is one shorter and, as a multiset, is the list minus one copy of the value |
| `Lists.RemoveFirstAt` | Modified/step5A_chat_completion_agent_plugin_with_kernel.py:59 | `remove` deletes the first occurrence: for any index holding the value with no earlier occurrence, the result is the list with that one position cut out |
| `Lists.RemoveFirstDistinct` | Modified/step5A_chat_completion_agent_plugin_with_kernel.py:57-59 | in a duplicate-free list, after removing a present value `x`, a value `y` remains if and only if `y` is an entry and `y != x` |
| `Destinations.Eligible` | Modified/step5A_chat_completion_agent_plugin_with_kernel.py:56-59 | the copy after the optional removal: the removal raises exactly when exclusion applies and the last pick is absent; when exclusion applies, the copy is one shorter and equals the catalog minus one copy of the last pick; otherwise the copy is the whole catalog |
| `Destinations.CatalogWellFormed` | Modified/step5A_chat_completion_agent_plugin_with_kernel.py:37-50 | the built-in catalog has exactly ten entries, all distinct and non-empty |
| `Destinations.TruthyIsSet` | Modified/step5A_chat_completion_agent_plugin_with_kernel.py:58 | when the last pick is a catalog entry and no entry is empty, the truthiness test is the same as "a last pick exists" |
| `Destinations.EligibleWithinCatalog` | Modified/step5A_chat_completion_agent_plugin_with_kernel.py:57-62 | with a non-empty catalog and when the removal does not raise, at least one entry is left to choose from, and every eligible entry is a catalog entry |
| `Destinations.EligibleExactly` | Modified/step5A_chat_completion_agent_plugin_with_kernel.py:56-59 | with a valid catalog and last pick, the removal never raises; a value is eligible if and only if it is a catalog entry that is not the last pick (the last pick is excluded only when one exists and the catalog has more than one entry) |
| `Destinations.EligibleCut` | Modified/step5A_chat_completion_agent_plugin_with_kernel.py:57-59 | when exclusion applies, the eligible copy is exactly the catalog with the first occurrence of the last pick cut out, and every other entry keeps its order |
| `Destinations.FirstCallAllEligible` | Modified/step5A_chat_completion_agent_plugin_with_kernel.py:52-58 | with no previous pick, every catalog entry is eligible |
| `Destinations.SingleEntryRepeats` | Modified/step5A_chat_completion_agent_plugin_with_kernel.py:58-62 | with a one-entry catalog, nothing is excluded, so every choice returns that entry again |
| `Destinations.RunNeverRepeats` | Modified/step5A_chat_completion_agent_plugin_with_kernel.py:57-67 | for any number of consecutive calls on a catalog of two or more distinct, non-empty entries, with the previous pick (if any) one of them: every answer is a catalog entry, no answer equals the one before it, and the first answer differs from the pick made before the run |
| `Destinations.RunOfSingleEntry` | Modified/step5A_chat_completion_agent_plugin_with_kernel.py:58-62 | for any number of consecutive calls on a one-entry catalog, every answer is that entry |
| `Destinations.DestinationsPlugin.constructor` | Modified/step5A_chat_completion_agent_plugin_with_kernel.py:37-52 | a new plugin holds exactly the ten listed destinations, has no last pick, and satisfies the class invariant |
| `Destinations.DestinationsPlugin.GetRandomDestination` | Modified/step5A_chat_completion_agent_plugin_with_kernel.py:54-67 | it keeps the invariant and changes only the last pick (the catalog is a constant). The returned value is an eligible entry and a catalog entry, and it becomes the new last pick. It differs from the previous pick whenever one existed and the catalog has more than one entry. With a one-entry catalog, it returns that entry |
| `Destinations.ThreeCalls` | Modified/step5A_chat_completion_agent_plugin_with_kernel.py:57-67 | three consecutive calls on any valid plugin leave it valid, and their answers form a run (`IsRun`) from the plugin's previous pick; the last answer becomes the last pick. So `RunNeverRepeats` and `RunOfSingleEntry` apply to what the method returns |
| `Destinations.TwoTurns` | Modified/step5A_chat_completion_agent_plugin_with_kernel.py:57-67 | two consecutive calls on a fresh plugin both return catalog entries, and the second differs from the first |

## Left out

- `main` and the two scripted user turns (lines 25-28 and 72-111) are not modelled. They cover the `Kernel`, the Azure chat-completion service, the agent, its conversation thread, function-choice settings, `asyncio`, `print` and thread deletion: foreign library calls, network I/O and async plumbing. `TwoTurns` only shows what two consecutive picks guarantee.
- The `@kernel_function` decorator and the `Annotated` return metadata (lines 54-55) are left out: they only register the function with the framework.
- The distribution of `random.choice` is left out, uniformity included. The choice is an unconstrained index into the eligible entries, so only membership and exclusion are stated.
- The code has no check for an empty catalog: its catalog is hard-coded and non-empty (lines 39-50). The model follows the code: non-emptiness is part of `Valid()`, and `CatalogWellFormed` proves it for the fixed catalog.
- The catalog is never reassigned after construction, so `destinations` is a `const` field set by the constructor, and every constructed plugin holds the fixed catalog. The model therefore does not capture a client that rebinds or mutates the attribute from outside, which Python would allow. The contracts of `GetRandomDestination` and `ThreeCalls` still cover any valid catalog, a one-entry catalog included (`|destinations| == 1 ==> destination == destinations[0]`). So do the lemmas about `Eligible` and `IsRun`.
- Concurrent callers are not modelled: the plugin is single-threaded.
