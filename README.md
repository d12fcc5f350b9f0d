# Interactive story graph: a verified Dafny model

This project models the story runtime of an interactive voice story, together with three small text helpers
that the stories use.

**The story.** A story is a directed graph of named nodes, and each node holds three things:

- an ordered list of actions (say, listen, play);
- a list of run-conditions that must hold before the story may move to it;
- a dynamic-event table that sends a visitor on to another node with a given probability.

The story also keeps four pieces of state:

- a `current` node;
- a `visited` set that only grows;
- a flat `context` dictionary that is merged in place;
- an `is_finished` flag.

One time step works in two stages:

1. *Run the current node.* Only its guard is modelled here.
2. *Read inputs.* Inputs are read until one names a neighbour of the current node whose run-conditions hold. The
   next node is drawn from that neighbour's dynamic events. Any other input gets a message, and the story waits for
   another input.

**The helpers.**

- The recursive nested-dictionary helpers `get_keys` and `get_value`.
- `englishify`, which joins a list as English words, and `wrap_text`, which adds speech tags.
- `inList`, which matches a phrase against an utterance using stemmed words.
- `get_entities`, which extracts entities from a classifier response.

**Modules:**

| module | file | contents |
|---|---|---|
| `Wrappers` | `wrappers.dfy` | `Option`, `Result`, and the Python exceptions the core raises, as values |
| `PyText` | `pytext.dfy` | Python string operations: `lower`, `split()`, `split(c)`, `join`, and replacing a character |
| `NestedDict` | `nested_dict.dfy` | Python values and `get_keys`, `get_value` |
| `StoryGraph` | `story.dfy` | the `Story` class and the functions that specify it |
| `TextToSpeech` | `text_to_speech.dfy` | `wrap_text`, `englishify` |
| `MovieActions` | `movie_actions.dfy` | `inList` |
| `Parsers` | `parsers.dfy` | `get_entities` |
| `StoryExamples` | `story_examples.dfy` | concrete stories built through the `Story` methods |

**Design decisions:**

- **Exceptions are values.** Every Python exception on a modelled path becomes an `Err` result, never a
  precondition. These are:
    - `StoryError` from the `current` setter and from `add_run_condition`;
    - `KeyError` from reading the attributes of a node that is missing, or that only `add_edge` created;
    - `IndexError` from `englishify([])` and from `get_entities` with no intents;
    - `RuntimeError` from `get_entities`;
    - `AttributeError` from `get_value` on a truthy value that is not a dict.
- **Node attributes.** A node that only `add_edge` created has an empty attribute dict, as in the graph library, and
  is modelled as `Bare`. `add_node` (re)sets a node's attributes to fresh, empty lists and table.
- **Story state.**
    - The state the source updates in place is the fields of `class Story`. The methods `modifies` those fields
      and state the whole new state.
    - `update_context` and `add_edges_from` keep the source's loops, with their invariants.
- **Randomness.** A run-condition is identified by name. Whether it holds when called is the parameter
  `holds: Condition -> bool`. The multinomial draw of `_select` is a parameter `pick`, one per input read: the index
  of the outcome it lands on. It must have positive weight under the weights numpy's `multinomial` samples with
  (`DrawWeights`): every outcome keeps its weight except the last, which gets what the others leave of 1.
- **Probabilities and dict order.** Probabilities are `real`. A Python 2 dict has no defined iteration order, so
  the model fixes one. A dynamic-event table is a sequence of (destination, probability) pairs, in which a new
  destination goes last. A nested dict is its list of entries. For a table, the order only decides which `pick`
  names which outcome, and `pick` ranges over every outcome. For `get_value`, the order decides which of several
  truthy answers comes first.

## Model

| member | source | states |
|---|---|---|
| `NestedDict.GetKeysExact` | story.py:12-21 | a key is in `get_keys(d)` exactly when following some path of entries through nested dicts reaches an entry with that key, at any depth; the empty dict has no path, so no keys |
| `NestedDict.GetKeys` | story.py:12-21 | the result holds every top-level key and every key `get_keys` finds in a nested dict value |
| `NestedDict.KeysFrom` | story.py:15-19 | the loop from the i-th entry on collects each remaining entry's key and every key of each remaining dict value |
| `NestedDict.KeysFromSound` | story.py:15-19 | every key the loop collects from the i-th entry on is reached by a path that starts at an entry at position i or later |
| `NestedDict.KeysFromComplete` | story.py:15-19 | every key reached by a path starting at position i or later is collected by the loop from the i-th entry on |
| `NestedDict.Lookup` | story.py:33-34 | `d[k]` for a present key is the value of an entry `(k, v)` of the dict |
| `NestedDict.GetValue` | story.py:23-40 | the only exception `get_value` can raise is the AttributeError for `keys` on a truthy value that is not a dict, at any depth |
| `NestedDict.SearchValues` | story.py:36-40 | the loop over the values can only raise that same AttributeError from a nested call |
| `NestedDict.GetValueSound` | story.py:23-40 | a truthy value returned by `get_value(d, k)` is stored under key `k` at some depth of `d` |
| `NestedDict.GetValueInTree` | story.py:23-40 | on a dependency tree (nested dicts with `None` leaves) `get_value` never raises, and a key found at no depth gives `None` |
| `NestedDict.GetValueFirstAnswer` | story.py:32-40 | for a truthy dict without `k` at the top, the result is `None` exactly when the search passes over every value. Otherwise it is the answer of the first value the search does not pass over, in iteration order |
| `NestedDict.SearchValuesOrder` | story.py:36-40 | the loop over the values from the i-th on answers `None` exactly when each value answers with a falsy value. Otherwise it gives the first other answer, a truthy value or an exception |
| `NestedDict.SearchValuesSound` | story.py:36-39 | a truthy answer of the search is stored under `k` in one of the searched values |
| `NestedDict.SearchValuesInTree` | story.py:36-40 | on a dependency tree the search never raises, and finds `None` when `k` is not among the keys of the remaining entries |
| `NestedDict.AbsentInTree` | story.py:23-40 | on a dependency tree in which no entry at any depth has key `k`, `get_value` gives `None` |
| `NestedDict.SearchValuesSkip` | story.py:36-40 | values whose answer is falsy do not change what the value loop returns |
| `NestedDict.OnlyAtStep` | story.py:32-40 | when `k` occurs once, below the top level, it is not a top-level key. It occurs once in the value it lies under, and in no other value |
| `NestedDict.GetValueOnlyAt` | story.py:23-40 | when `k` occurs exactly once in a dependency tree, `get_value` finds it. A non-leaf `k` gives its dict and a leaf gives `None`, as the docstring (story.py:26-27) promises |
| `NestedDict.GetValueShadowed` | story.py:32-34 | with `k` both at the top (a leaf) and deeper (a non-leaf), the top-level `None` is returned. The docstring's "a dict if `k` is not a leaf" holds only for a key that occurs once |
| `StoryGraph.FirstFailure` | story.py:418-426 | the reference position of the first condition that does not hold: every condition before it holds, and the one at it does not, or it is the length when all hold |
| `StoryGraph.CheckConditions` | story.py:418-426 | `_check_conditions` is true on an empty list and otherwise is the conjunction of all conditions. The conditions called are exactly those up to and including the first false one, and only that one's fail function is called |
| `StoryGraph.SumSnoc` | story.py:390-392 | the sum of the probabilities with one more appended is the old sum plus that one |
| `StoryGraph.OutcomesOf` | story.py:384-392 | the outcome list is the destinations with their probabilities, followed by the node itself exactly when they sum to less than 1. The weights then sum to 1, or to the explicit sum when that is at least 1 |
| `StoryGraph.DrawWeights` | story.py:393 | the weights numpy's `multinomial` draws with: the listed ones except the last, which gets the remainder; they sum to 1 |
| `StoryGraph.ResidualDrawWeights` | story.py:389-393 | when the node takes up the residual probability, `multinomial` accepts the list and draws with exactly the weights `_select` lists |
| `StoryGraph.EventProbability` | story.py:130-139 | a table gives a destination no probability exactly when the destination is absent, and otherwise one of its entries |
| `StoryGraph.PutEvent` | zoo_story.py:34 | writing `events[dest] = p` keeps the order of destinations, and appends `dest` when it is new |
| `StoryGraph.PutEventLookup` | zoo_story.py:34 | after `events[dest] = p` the table gives `dest` the probability `p` and every other destination what it gave before |
| `StoryGraph.WithNode` | story.py:241 | adding an endpoint adds exactly that node and keeps every existing node's attributes |
| `StoryGraph.AddEdgeData` | story.py:241 | adding an edge adds exactly that pair and keeps every other edge unchanged. The pair's data dict is updated as `dict.update` does: its keys become the old keys plus the new ones, every new key takes the new value, and every other old key keeps its value |
| `StoryGraph.AddEdgesKeys` | story.py:243-252 | adding an edge list adds exactly the pairs it names |
| `StoryGraph.AddEdgesKeepsData` | story.py:243-252 | adding an edge list never drops a data key of an existing edge |
| `StoryGraph.AddEdgesHasData` | story.py:243-252 | after adding an edge list, each edge of it holds the keys of the call's keyword data and of its own data dict. When no later element names the same pair, the edge also holds their values, since a later element's data would overwrite them |
| `StoryGraph.AddEdgesUntouched` | story.py:243-252 | an existing edge that no element of the list names keeps its data dict unchanged |
| `StoryGraph.AddEndpointsKeys` | story.py:243-252 | adding an edge list adds exactly its endpoints, as bare nodes, and keeps every existing node |
| `StoryGraph.AddEdgesAppend` | story.py:243-252 | adding the concatenation of two edge lists is adding one, then the other |
| `StoryGraph.UndirectedAsOneList` | story.py:254-268 | `add_undirected_edges_from` has the effect of one `add_edges_from` of the list followed by its reversal |
| `StoryGraph.PairsReversed` | story.py:261-267 | the pairs of the reversed list are the reversals of the pairs of the list |
| `StoryGraph.UndirectedKeys` | story.py:258-268 | `add_undirected_edges_from` adds exactly the pairs of the list and their reversals |
| `StoryGraph.FlipSymmetric` | story.py:258-268 | adding a set of pairs together with their reversals keeps a symmetric edge relation symmetric |
| `StoryGraph.UndirectedData` | story.py:258-268 | both directions of every edge of the list exist afterwards, and both hold the keys of that edge's data. When no other element names the edge in either direction, both also hold its values |
| `StoryGraph.UndirectedEdgesEffect` | story.py:254-268 | the undirected edges added are the list's and their reversals, and symmetry is preserved. Both directions carry the keys of each edge's data, and its values when no other element names the edge in either direction |
| `StoryGraph.AddEdgeConsistent` | story.py:237-241 | adding an edge with its endpoints keeps edges between nodes of the story, and visited and current nodes in the story |
| `StoryGraph.Story.constructor` | story.py:52-71 | a new story has no nodes, edges, current node, visited nodes or context, and is not finished |
| `StoryGraph.Story.Neighbors` | story.py:352-356 | `neighbors(u)` are exactly the targets of edges from `u`, and in a consistent story they are nodes of the story |
| `StoryGraph.Story.RunsCurrent` | story.py:402-403 | `_run_current` gets past its guard only when the story is not finished and has a current node, which is then a visited node of the story |
| `StoryGraph.Story.AccessorTarget` | story.py:119-139 | the accessors read a truthy `n`, else the current node. The target is always a truthy name and is missing exactly when neither is present. A fallback to the current node reads a node of the story |
| `StoryGraph.Story.RunConditions` | story.py:119-128 | `run_conditions(n)` is the run-condition list of the target node, or `[]` when there is no target. A missing target raises KeyError for the node, and a bare one KeyError for `run_conditions` |
| `StoryGraph.Story.DynamicEvents` | story.py:130-139 | `dynamic_events(n)` is the event table of the target node, or an empty table when there is no target. A missing target raises KeyError for the node, and a bare one KeyError for `dynamic_events` |
| `StoryGraph.Story.SetCurrent` | story.py:141-151 | a falsy node changes nothing. A node of the story becomes current and is added to visited. Any other node raises `StoryError("<node> not in the story")` and changes nothing. `visited` never shrinks |
| `StoryGraph.Story.SetContext` | story.py:153-155 | the context becomes the given dict |
| `StoryGraph.Story.UpdateContext` | story.py:157-161 | every key of `d` gets its value from `d`, every other key keeps its old value, and no key is removed |
| `StoryGraph.Story.AddNode` | story.py:177-183 | the node gets fresh, empty actions, run-conditions and dynamic events, and all else is unchanged |
| `StoryGraph.Story.AddNodesFrom` | story.py:185-189 | every listed node gets fresh attributes, no other node changes, and no other node is added |
| `StoryGraph.Story.AddEdge` | story.py:237-241 | missing endpoints become bare nodes, and the edge's data dict is updated with the keyword data |
| `StoryGraph.Story.AddEdgesFrom` | story.py:243-252 | the node table and edge map become the results of adding the list's elements in order |
| `StoryGraph.Story.AddUndirectedEdge` | story.py:254-256 | both `(u, v)` and `(v, u)` become edges, with the endpoints added as for `add_edge` |
| `StoryGraph.Story.AddUndirectedEdgesFrom` | story.py:258-268 | the list is added, then its reversal with every data dict carried over |
| `StoryGraph.Story.AppendAction` | story.py:311 | appending an action raises KeyError for a missing or bare node; otherwise it grows that node's action list by the action, and nothing else changes |
| `StoryGraph.Story.AddSay` | story.py:307-311 | appends a say action with its message, or raises KeyError without change |
| `StoryGraph.Story.AddListen` | story.py:313-317 | appends a listen action, or raises KeyError without change |
| `StoryGraph.Story.AddPlay` | story.py:319-324 | appends a play action with its file name, or raises KeyError without change |
| `StoryGraph.Story.AddRunCondition` | story.py:271-297 | checks its arguments in the source order, raising one of three `StoryError` messages or a KeyError for a bare node. It succeeds exactly when all checks pass, and then appends the condition wrapped with its fail function, changing nothing else |
| `StoryGraph.Story.SetDynamicEvent` | story.py:130-139 | `dynamic_events(n)[dest] = p` writes into the target node's table. It fails exactly when the accessor raises, returning that accessor's error and changing nothing. With no target nothing changes |
| `StoryGraph.Story.IsRunnable` | story.py:413-416 | `_is_runnable(n)` holds exactly when every run-condition of `n` holds. It raises exactly when `run_conditions(n)` does, with the same error |
| `StoryGraph.Story.Select` | story.py:380-397 | with no dynamic events, the node itself. Otherwise it is the outcome at index `pick`, a destination or the node when probabilities leave residual weight, and that outcome has positive draw weight. It raises the accessor's KeyError when the table cannot be read, and numpy's ValueError exactly when all weights but the last sum to more than 1 |
| `StoryGraph.Story.Respond` | story.py:358-378 | the rephrase message exactly when the input names no neighbour. A neighbour whose conditions fail gets "You can't go to the X yet", with underscores turned to spaces. A neighbour whose conditions cannot be read raises `_is_runnable`'s error. A runnable neighbour gives `_select`'s node or its error |
| `StoryGraph.Story.Step` | story.py:347-378 | no current node gives None. A leaf sets `is_finished`, after which the current node no longer runs. Otherwise it is one pass of the loop body for the input, with nothing else changed |
| `StoryGraph.Story.GetNext` | story.py:347-378 | inputs are answered in order, each with its own draw, until one is accepted or raises. The messages are those of the rejected inputs, and when every input is rejected the loop is still waiting |
| `StoryGraph.Story.Tick` | story.py:76-80 | a time step is `_get_next` followed by the setter. A chosen node of the story becomes current and visited. One outside the story raises `StoryError` and changes neither `current` nor `visited`, and so does an exception from `_get_next`. A time step that is still waiting raises nothing. Without a current node nothing changes, `is_finished` included |
| `StoryExamples.UndirectedTriangle` | tests.py:37-48 | after one undirected edge and a list of two more, each of `a`, `b`, `c` is a neighbour of each other |
| `StoryExamples.CinemaNodes` | movie_story.py:61-65 | the four cinema nodes, added with one `add_nodes_from` where the source calls `add_node` four times (the same effect on fresh nodes), have fresh attributes, there are no edges, and the greeting is current and visited |
| `StoryExamples.AddCinemaDirected` | movie_story.py:71-76 | the directed edge list adds exactly its four edges and no node |
| `StoryExamples.AddCinemaUndirected` | movie_story.py:75-77 | the undirected edge between the box office and the concessions adds both directions and no node |
| `StoryExamples.CinemaStory` | movie_story.py:61-77 | the cinema story has four fresh nodes (names abbreviated to one letter), exactly six edges, and its greeting is current; `set_actions` (line 66) is not part of this model |
| `StoryExamples.CinemaWalk` | movie_story.py:61-77 | in direct-matching mode, that is, built without the workspace id that movie_story.py:60 passes (which makes `_get_next` classify intents, story.py:360-361): from the greeting, asking for the auditorium gets the rephrase message; asking for the box office then moves there and visits it |
| `TextToSpeech.WrapText` | text_to_speech.py:59-67 | the result is the opening tags, the text and the closing tags. It opens with `<speak>` and closes with `</speak>`. With a style, the express-as tag naming the style follows `<speak>` and `</express-as>` precedes `</speak>`. Removing the tags gives back the text |
| `TextToSpeech.Englishify` | text_to_speech.py:69-82 | raises IndexError exactly on the empty list |
| `TextToSpeech.EnglishifyNatural` | text_to_speech.py:69-82 | one item is returned as it is, and two are joined by " and " or " or ". More are comma-separated, with "and " or "or " before the last item, and the other items unchanged |
| `PyText.JoinSplitIsReplace` | story.py:373 | joining the pieces split at a character with another character replaces the first by the second; `' '.join(intent.split('_'))` turns underscores into spaces |
| `PyText.SplitOn` | story.py:373 | `s.split(c)` has at least one piece and no piece contains `c` |
| `PyText.SplitJoinRoundTrip` | story.py:373 | splitting at `c` and then joining with `c` gives back the string |
| `PyText.JoinEnds` | text_to_speech.py:75-82 | a joined string starts with the first piece and ends with the last |
| `TextToSpeech.EnglishifyEnds` | text_to_speech.py:69-82 | the natural-English list starts with the first item and ends with the last |
| `PyText.Lower` | movie_actions.py:136 | `s.lower()` keeps the length, lower-cases each character, and leaves no ASCII capital |
| `PyText.Words` | movie_actions.py:138-140 | `s.split()` gives non-empty pieces with no whitespace in them |
| `PyText.WordsAreRuns` | movie_actions.py:138-140 | the pieces of `s.split()` are exactly the maximal runs of non-space characters of `s`, in order. Every piece is such a run, every such run is a piece, and the pieces put together are the non-space characters of `s` |
| `PyText.WordsSound` | movie_actions.py:138-140 | every piece of `s.split()` is a maximal run of non-space characters of `s` |
| `PyText.WordsComplete` | movie_actions.py:138-140 | every maximal run of non-space characters of `s` is a piece of `s.split()` |
| `PyText.WordsConcat` | movie_actions.py:138-140 | the pieces of `s.split()` put together are the non-space characters of `s`, in order |
| `PyText.JoinSnoc` | text_to_speech.py:82 | joining a list with one more item appends the separator and that item |
| `MovieActions.IndexOf` | movie_actions.py:137 | `lst.index(x)` is the first position holding `x` |
| `MovieActions.InList` | movie_actions.py:134-154 | the result is None, -1 or a valid index. An exact case-insensitive match gives the first such index. Failing that, "quit" among the words gives None. Failing that, the first phrase all of whose stemmed lower-case words the utterance contains. It is -1 exactly when none of these applies |
| `Parsers.GetEntities` | parsers.py:10-16 | IndexError with no intents, RuntimeError `Non-matching intents` when the best intent differs, and otherwise one value per entity |
| `Parsers.GetEntitiesValues` | parsers.py:13-14 | on a match, the i-th value equals the i-th entity's value ignoring case, and is already in lower case |
| `Parsers.GetEntitiesReadsFirstIntentOnly` | parsers.py:13 | the lower-ranked intents never change the result |

## Left out

- Input and output. This covers the input and output functions, speech synthesis and recognition, the classifier
  service, media playback and GUI code; none is part of this model. In `_get_next` the inputs are a finite list
  (`GetNext`) or one string (`Step`, `Respond`). The messages the source prints come back as values.
- Classified-intent mode of `_get_next`, which goes through `parse` and `get_intent`. parsers.py does not define
  `get_intent`; only direct matching of the input is modelled.
- The body of `_run_current`, and `verify` with its helpers `_verify_arg_dict` and `_check_current`.
    - `_run_current` and `_verify_arg_dict` read an `arg_dict` accessor that the source has commented out, and
      `_run_current` calls the current node, a string, as a function.
    - Only the guard of `_run_current` is modelled, as `Story.RunsCurrent`.
- `require_visit`: it appends to the run-conditions of an undefined variable `node`.
- Neighbour lookup by `__name__`. `_get_next` keys the neighbours by `f.__name__`, which a string node does not
  have; neighbours are modelled as the node strings themselves.
- `add_node` and `add_nodes_from` refer to the class attribute `_node_attributes` without qualification. As
  intended, every added node gets fresh, empty actions, run-conditions and dynamic events, without the shared lists
  the class attribute would give.
- The `str()` conversions of node names in `add_node`, `add_edge` and `add_edges_from`: nodes are strings here.
  The in-place rewrite of the caller's `ebunch` list is not observable on Dafny values.
- Edge tuples of lengths other than 2 and 3, and the graph library's other operations (`remove_node`, graph
  attributes).
- The copies returned by the `visited` and `context` properties: Dafny sets and maps are values, so the fields are
  copies already.
- Select: the model leaves out floating-point round-off in `1 - sum` and the `1e-12` tolerance of numpy's check
  of `sum(pvals[:-1])`. It also leaves out the check for negative weights. The draw is only required to land on
  an outcome of positive weight; the sampling distribution is not modelled.
- CheckConditions: conditions return booleans here. With `and`, the source returns the first falsy condition
  result, or the last result when all are truthy, and Python then only tests it for truth.
- Cinema example: the node names are abbreviated to one letter: `g` for the greeting, `o` for the box office,
  `c` for the concessions and `a` for the auditorium. `set_actions` and the context are not part of this model. The
  one undirected edge is added with `add_undirected_edge`, which for a one-element list has the effect of
  `add_undirected_edges_from`: both add the edge in both directions with the same data, and the endpoints are
  already nodes (`Story.AddUndirectedEdge`, `Story.AddUndirectedEdgesFrom`). The walk uses direct matching; the
  source story is built with a workspace id and classifies intents instead.
- InList: the Snowball stemmer is the parameter `stem`, with no properties assumed.
- GetNext: one `holds` function answers every run-condition for a whole `_get_next` or time step. This assumes that the conditions, and the fail functions the wrapper at story.py:291-292 calls, have no side effect on later answers.
- Respond: the fail functions `CheckConditions` reports as called for a rejected input are not passed on by `Respond`, `GetNext` or `Tick`, and their side effects are not modelled.
- Lower: lower-casing is ASCII-only, and so is the whitespace set of `split()`. That is Python 2's rule for byte
  strings; where the source's strings may be `unicode` (the entity values of `get_entities`, which come from a
  JSON response), Python lower-cases non-ASCII letters too, and the model does not.
- WrapText: the conversion with `unicode(s)` is not modelled; text is a sequence of characters throughout.
