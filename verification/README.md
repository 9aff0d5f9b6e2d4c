# Verified models of Zabbix's containers, wide arithmetic, option scanner and active agent

Zabbix keeps its configuration and history caches in its own containers, averages trends in 128 bits, parses its
command lines with a permuting scanner, and collects values in an agent that must not lose log lines. This project
models these parts of its C sources in Dafny, in the form the sources have (arrays, linked nodes and fields that are
updated in place), and proves what they promise.

| file | what it models |
| --- | --- |
| `Algodefs.dfy` | the prime numbers that all table sizes come from |
| `Hashmap.dfy` | the map from 64-bit keys to integers that rehashes inside its own slot table |
| `BinaryHeap.dfy` | the priority queue whose optional index maps each key to its position |
| `Hashset.dfy` | the chained set that relinks its nodes when it grows, and the iterator that may remove |
| `Int128.dfy` | 128-bit addition, subtraction, shifts, multiplication and division, and averages of trends |
| `Getopt.dfy`, `GetoptForms.dfy` | the resumable option scanner that permutes `argv`, and what command lines mean |
| `ActiveBuffer.dfy` | the agent's bounded buffer of values that wait to be sent |
| `LogFile.dfy`, `LogText.dfy`, `LogRuns.dfy` | reading log files line by line, in any encoding, and what becomes of the lines |
| `Telnet.dfy` | line ends on the wire and in texts |
| `Actions.dfy` | the evaluation of an action's conditions |
| `CpuStat.dfy` | the ring of processor counters and the shares computed from it |
| `Ctypes.dfy` | integer widths and other basics |

Each class is proved against a value: a map for the hash map, a multiset and a map for the heap, a set of nodes for
the hash set, a number for the pair of words, a plan of the whole command line for the scanner, a state for the
buffer and a window of samples for the ring. Loops advance a named relation between such values, one lemma to a step,
and the theorems about whole runs are lemmas about the same values. What such a value means is
stated once more without the functions that compute it: by rendering and reading back, by counts, by the positions
of elements or by the history of a run. Some definitions are
guarded by `Unfolded`, which is always true: a proof that needs the body mentions it, and to all others the definition
is only a name.

Where the code and the text around it differ, the model follows the code:

- `zbx_binary_heap_remove_direct` only lets the moved element sink. `RemoveDirect` states exactly when that leaves
  the heap in order, and `RemovalCanBreakOrder` is a heap where it does not.
- A value that is not persistent can displace a persistent one of the same item, and the counter of persistent
  values is not reduced then. `CountersBounded` therefore is an inequality, with the case of equality, and
  `CounterCanExceed` is a run where it is strict.
- `zbx_read` looks behind a CR if at least one more byte has been read. With units of two or four bytes it may so
  compare bytes that were not read; `LineLengthInside` says exactly when that makes the line longer than what was
  read, `TornLineIsReadAgain` shows what follows, and the theorems about log files require that it does not happen.
- Conditions are ordered by type, and the number 255 stands for no type seen yet. If the first condition has this
  type, all have, and they count as met; `OnlyTypeIsNoType` says when that is wrong, and `NoTypeIsMet` is an input.
- Adding a 128-bit number to itself adds the high word after the carry, so the carry counts twice.

## Model

| member | source | states |
|---|---|---|
| `Algodefs.IsPrime` | zabbix-web-monitoring-pof/src/libs/zbxalgo/algodefs.c:310-326 | the trial division by 2 and by odd numbers up to the square root answers true exactly for the primes |
| `Algodefs.NoDivisorAboveSquareRoot` | zabbix-web-monitoring-pof/src/libs/zbxalgo/algodefs.c:317-325 | a number without a divisor up to its square root has none: the reason why the loop may stop |
| `Algodefs.PrimeAbove` | zabbix-web-monitoring-pof/src/libs/zbxalgo/algodefs.c:328-334 | above every number there is a prime, which is why the search for the next prime ends |
| `Algodefs.NextPrime` | zabbix-web-monitoring-pof/src/libs/zbxalgo/algodefs.c:328-334 | the search terminates with the least prime not below n |
| `Hashmap.HashMap.constructor` | zabbix-web-monitoring-pof/src/libs/zbxalgo/hashmap.c:61-79 | a new map is empty and valid, and the number of its slots is the least prime not below the size asked for |
| `Hashmap.HashMap.Find` | zabbix-web-monitoring-pof/src/libs/zbxalgo/hashmap.c:107-118 | the scan of one slot finds the entry of the key exactly if the map binds it |
| `Hashmap.HashMap.Get` | zabbix-web-monitoring-pof/src/libs/zbxalgo/hashmap.c:102-121 | the value bound to the key, or FAIL if there is none |
| `Hashmap.HashMap.Set` | zabbix-web-monitoring-pof/src/libs/zbxalgo/hashmap.c:123-184 | set is map update whether or not the table grows, the table grows exactly when the load reaches five entries a slot, and then to the least prime not below max(n + 1, n * 3 / 2); validity includes num_data < 5 * num_slots and num_data equal to the number of keys |
| `Hashmap.HashMap.Grow` | zabbix-web-monitoring-pof/src/libs/zbxalgo/hashmap.c:149-182 | rehashing in place changes no binding (frame of Model) and restores the bound on the load, with the least prime not below max(n + 1, n * 3 / 2) as the number of slots |
| `Hashmap.HashMap.RehashSlot` | zabbix-web-monitoring-pof/src/libs/zbxalgo/hashmap.c:161-178 | one pass over a slot with swap-remove moves out exactly the entries that belong elsewhere |
| `Hashmap.HashMap.Remove` | zabbix-web-monitoring-pof/src/libs/zbxalgo/hashmap.c:186-205 | removal by overwriting with the last entry unbinds exactly the given key |
| `Hashmap.HashMap.Clear` | zabbix-web-monitoring-pof/src/libs/zbxalgo/hashmap.c:207-226 | an empty, valid map |
| `Hashmap.TotalIsKeyCount` | zabbix-web-monitoring-pof/src/libs/zbxalgo/hashmap.c:141-147 | if every entry is stored in one place, the number of entries is the number of keys |
| `Hashmap.SwapRemoveUnbinds` | zabbix-web-monitoring-pof/src/libs/zbxalgo/hashmap.c:192-203 | overwriting an entry with the last one of its slot loses exactly that entry |
| `Hashmap.MoveKeeps` | zabbix-web-monitoring-pof/src/libs/zbxalgo/hashmap.c:168-177 | appending an entry to another slot and swap-removing it here keeps all bindings, each stored once |
| `Hashmap.MoveAdvances` | zabbix-web-monitoring-pof/src/libs/zbxalgo/hashmap.c:163-178 | moving an entry leaves finished slots finished, although the move can append to a slot the loop has not reached |
| `Hashmap.RehashMove` | zabbix-web-monitoring-pof/src/libs/zbxalgo/hashmap.c:163-178 | one move keeps bindings, progress and the number of entries together |
| `Hashmap.RehashingDone` | zabbix-web-monitoring-pof/src/libs/zbxalgo/hashmap.c:159-181 | when the loop has passed all old slots every entry is in slot hash % inc_slots |
| `BinaryHeap.Heap.constructor` | zabbix-web-monitoring-pof/src/libs/zbxalgo/binaryheap.c:140-167 | a new heap is empty, ordered and has an index exactly if it is direct |
| `BinaryHeap.Heap.Swap` | zabbix-web-monitoring-pof/src/libs/zbxalgo/binaryheap.c:38-53 | exchanges two elements and, in a direct heap, their positions in the index |
| `BinaryHeap.Heap.BubbleUp` | zabbix-web-monitoring-pof/src/libs/zbxalgo/binaryheap.c:70-82 | from any start the element rises until it is not above its parent; if it moved, order and an exact index are restored, even when the index did not know the element |
| `BinaryHeap.Heap.BubbleDown` | zabbix-web-monitoring-pof/src/libs/zbxalgo/binaryheap.c:84-128 | sinking an element restores order exactly if the element was not above the parent of its start |
| `BinaryHeap.Heap.FindMin` | zabbix-web-monitoring-pof/src/libs/zbxalgo/binaryheap.c:199-208 | the element at the root, and no element is below it if the heap is in order |
| `BinaryHeap.Heap.Insert` | zabbix-web-monitoring-pof/src/libs/zbxalgo/binaryheap.c:210-229 | adds exactly the element, keeps order, keeps the index exact and adds the key to the items |
| `BinaryHeap.Heap.UpdateDirect` | zabbix-web-monitoring-pof/src/libs/zbxalgo/binaryheap.c:231-253 | replaces exactly the element with the key, whichever way it then travels, and keeps order and index |
| `BinaryHeap.Heap.RemoveMin` | zabbix-web-monitoring-pof/src/libs/zbxalgo/binaryheap.c:255-276 | removes exactly the root and its key, keeps order and index |
| `BinaryHeap.Heap.RemoveDirect` | zabbix-web-monitoring-pof/src/libs/zbxalgo/binaryheap.c:278-305 | removes exactly the element with the key and keeps the index exact; from a heap in order the result is in order if and only if the hole was the root or the last slot or the moved element is not below the parent of the hole |
| `BinaryHeap.Heap.Clear` | zabbix-web-monitoring-pof/src/libs/zbxalgo/binaryheap.c:307-319 | an empty heap with an empty index |
| `BinaryHeap.RootIsLeast` | zabbix-web-monitoring-pof/src/libs/zbxalgo/binaryheap.c:199-208 | in an ordered heap the root is not above any element |
| `BinaryHeap.TakeDue` | zabbix-web-monitoring-pof/src/libs/zbxdbcache/dbconfig.c:4893-4909 | the loop that takes what is due from a queue: at most max elements, in order, nothing left precedes one of them, and if fewer than max are taken nothing that is left is due |
| `BinaryHeap.UpStep` | zabbix-web-monitoring-pof/src/libs/zbxalgo/binaryheap.c:70-82 | swapping with a greater parent moves the only place where order may fail to the parent |
| `BinaryHeap.DownStep` | zabbix-web-monitoring-pof/src/libs/zbxalgo/binaryheap.c:84-128 | swapping with the lesser child moves the only place where order may fail to that child |
| `BinaryHeap.StuckBelowParent` | zabbix-web-monitoring-pof/src/libs/zbxalgo/binaryheap.c:84-128 | an element that is above one of its children is not above its parent when all else is in order, so a failure upwards is never repaired by sinking |
| `BinaryHeap.SetMakesExact` | zabbix-web-monitoring-pof/src/libs/zbxalgo/binaryheap.c:218-226 | entering the position of the one element the index lacks makes the index exact |
| `BinaryHeap.RiseStep` | zabbix-web-monitoring-pof/src/libs/zbxalgo/binaryheap.c:70-82 | a step up keeps the elements, the progress and, with the two index updates of the swap, makes the index exact |
| `BinaryHeap.SinkStep` | zabbix-web-monitoring-pof/src/libs/zbxalgo/binaryheap.c:84-128 | a step down keeps the elements, the progress and, with the two index updates of the swap, makes the index exact |
| `BinaryHeap.HoleFilledOrder` | zabbix-web-monitoring-pof/src/libs/zbxalgo/binaryheap.c:288-298 | after the last element is moved into the hole, it is not above its parent exactly under the stated condition |
| `BinaryHeap.RemovalCanBreakOrder` | zabbix-web-monitoring-pof/src/libs/zbxalgo/binaryheap.c:278-305 | a heap of seven elements in order that removing one key leaves out of order |
| `Hashset.HashSet.constructor` | zabbix-web-monitoring-pof/src/libs/zbxalgo/hashset.c:49-71 | an empty, valid set, its number of slots the least prime not below init_size; validity includes num_data < (num_slots * 4) / 5 |
| `Hashset.HashSet.Search` | zabbix-web-monitoring-pof/src/libs/zbxalgo/hashset.c:184-203 | an entry that is the same as the data, or null exactly if there is none |
| `Hashset.HashSet.Grow` | zabbix-web-monitoring-pof/src/libs/zbxalgo/hashset.c:128-170 | growth keeps every node, makes room below the critical load with the least prime not below max(n + 1, n * 3 / 2) as the number of slots, and does nothing at all when the allocation fails |
| `Hashset.HashSet.RelinkSlot` | zabbix-web-monitoring-pof/src/libs/zbxalgo/hashset.c:145-164 | one pass over a chain moves out exactly the nodes that belong elsewhere and keeps the set of nodes |
| `Hashset.HashSet.MoveEntry` | zabbix-web-monitoring-pof/src/libs/zbxalgo/hashset.c:152-157 | taking a node out of the middle of its chain and putting it in front of another, by three pointer stores, keeps all chains well linked |
| `Hashset.HashSet.Insert` | zabbix-web-monitoring-pof/src/libs/zbxalgo/hashset.c:108-182 | set insertion, in three exhaustive cases: if a node is the same as the data it is returned and nothing changes; else if the growth that is due or the allocation of the node fails, the result is null and the set is as before; else exactly one fresh node with the data and its hash is added and returned; the slots only change in number at the critical load |
| `Hashset.HashSet.Link` | zabbix-web-monitoring-pof/src/libs/zbxalgo/hashset.c:171-179 | a fresh node is put at the head of its chain |
| `Hashset.HashSet.Remove` | zabbix-web-monitoring-pof/src/libs/zbxalgo/hashset.c:205-246 | removes exactly the entry that is the same as the data, if there is one |
| `Hashset.HashSet.UnlinkEntry` | zabbix-web-monitoring-pof/src/libs/zbxalgo/hashset.c:219-243 | closing the gap a node leaves removes it from its chain and from the set and nothing else |
| `Hashset.HashSet.Clear` | zabbix-web-monitoring-pof/src/libs/zbxalgo/hashset.c:248-264 | no node is left and the set is valid |
| `Hashset.Unlink` | zabbix-web-monitoring-pof/src/libs/zbxalgo/hashset.c:219-243 | at the level of pointers: bypassing a node spells out the chains without it |
| `Hashset.Prepend` | zabbix-web-monitoring-pof/src/libs/zbxalgo/hashset.c:174-177 | at the level of pointers: a new head spells out the chains with it |
| `Hashset.Move` | zabbix-web-monitoring-pof/src/libs/zbxalgo/hashset.c:152-157 | at the level of pointers: bypass and prepend together neither lose, double nor cycle a node |
| `Hashset.MoveAdvances` | zabbix-web-monitoring-pof/src/libs/zbxalgo/hashset.c:148-164 | moving a node keeps what the relinking loop has achieved |
| `Hashset.ChainDone` | zabbix-web-monitoring-pof/src/libs/zbxalgo/hashset.c:143-165 | a chain passed to its end is finished, and the last finished chain puts every node in chain hash % inc_slots |
| `Hashset.GrowthMakesRoom` | zabbix-web-monitoring-pof/src/libs/zbxalgo/hashset.c:128-134 | a prime not below max(n + 1, n * 3 / 2) is enough room for one more entry |
| `Hashset.Iterator.constructor` | zabbix-web-monitoring-pof/src/libs/zbxalgo/hashset.c:269-273 | a reset iterator has all nodes ahead |
| `Hashset.Iterator.Next` | zabbix-web-monitoring-pof/src/libs/zbxalgo/hashset.c:275-302 | returns a node that is still ahead and takes only it off, or null exactly if none is |
| `Hashset.Iterator.Remove` | zabbix-web-monitoring-pof/src/libs/zbxalgo/hashset.c:304-334 | removes exactly the current entry and leaves what is still to be visited as it was, also at the head of a chain where the iterator steps back a slot |
| `Hashset.UnvisitedStep` | zabbix-web-monitoring-pof/src/libs/zbxalgo/hashset.c:280-300 | stepping along a chain takes one node off those ahead |
| `Hashset.UnvisitedNextChain` | zabbix-web-monitoring-pof/src/libs/zbxalgo/hashset.c:288-300 | nodes ahead at the end of a chain are those ahead at the head of the next |
| `Hashset.UnvisitedWithout` | zabbix-web-monitoring-pof/src/libs/zbxalgo/hashset.c:312-333 | removing the current node does not change which nodes are ahead |
| `Hashset.WalkStep` | zabbix-web-monitoring-pof/src/libs/zbxalgo/hashset.c:269-334 | one turn of the walk keeps visited, current and remaining nodes a partition of all, and of the visited ones exactly the failing ones are left |
| `Hashset.WalkEnds` | zabbix-web-monitoring-pof/src/libs/zbxalgo/hashset.c:269-334 | a walk that is over has visited every node once and left exactly the ones failing the predicate |
| `Hashset.RemoveWhere` | zabbix-web-monitoring-pof/src/libs/zbxdbcache/dbconfig.c:1424-1436 | the loop that visits all entries and removes those that satisfy a predicate terminates, visits each exactly once, and leaves exactly the others |
| `Int128.Decrement128` | zabbix-web-monitoring-pof/src/libs/zbxcommon/int128.c:38-46 | subtraction modulo 2^128 with a borrow detected by comparing low words, also of a number from itself |
| `Int128.ShiftRight128` | zabbix-web-monitoring-pof/src/libs/zbxcommon/int128.c:60-76 | division by 2^bits for every number of bits below 128 |
| `Int128.ShiftLeft128` | zabbix-web-monitoring-pof/src/libs/zbxcommon/int128.c:91-107 | multiplication by 2^bits modulo 2^128 |
| `Int128.Compare` | zabbix-web-monitoring-pof/src/libs/zbxcommon/int128.c:125-132 | the order of the 128-bit values |
| `Int128.Multiply64By32Shift` | zabbix-web-monitoring-pof/src/libs/zbxcommon/int128.c:152-163 | adds value times factor shifted by 0 or 32 bits, modulo 2^128 |
| `Int128.Increment64` | zabbix-web-monitoring-pof/src/libs/zbxcommon/int128.c:178-186 | addition of a word modulo 2^128 |
| `Int128.Increment128` | zabbix-web-monitoring-pof/src/libs/zbxcommon/int128.c:201-210 | addition modulo 2^128; if both operands are the same object, twice the value plus one unit of the high word when the low words carry |
| `Int128.Multiply64` | zabbix-web-monitoring-pof/src/libs/zbxcommon/int128.c:225-232 | the exact 128-bit product of any two words |
| `Int128.Divide64` | zabbix-web-monitoring-pof/src/libs/zbxcommon/int128.c:248-294 | the exact quotient for every 128-bit dividend and every nonzero word, also when the result is the dividend |
| `Int128.DivideLongRemainder` | zabbix-web-monitoring-pof/src/libs/zbxcommon/int128.c:280-293 | the shift-subtract loop ends with the low word of the quotient |
| `Int128.SubtractDivisor` | zabbix-web-monitoring-pof/src/libs/zbxcommon/int128.c:288-289 | one subtraction keeps the division invariant and sets a quotient bit that was clear |
| `Int128.ShiftDivisorDown` | zabbix-web-monitoring-pof/src/libs/zbxcommon/int128.c:282-286 | the inner loop keeps divisor equal to value times mask, never shifts out a set bit and ends before the mask is zero |
| `Int128.AddWithCarry` | zabbix-web-monitoring-pof/src/libs/zbxcommon/int128.c:203-209 | carry detection by comparing the low sum with the old low word is exact |
| `Int128.SubWithBorrow` | zabbix-web-monitoring-pof/src/libs/zbxcommon/int128.c:40-45 | borrow detection is exact |
| `Int128.AliasedIncrement` | zabbix-web-monitoring-pof/src/libs/zbxcommon/int128.c:203-209 | what the addition gives when a number is added to itself |
| `Int128.OrOfDisjoint` | zabbix-web-monitoring-pof/src/libs/zbxcommon/int128.c:73-75 | OR of two words without a common bit is their sum |
| `Int128.AndMask` | zabbix-web-monitoring-pof/src/libs/zbxcommon/int128.c:229 | AND with a low mask is the remainder |
| `Int128.FactorHalves` | zabbix-web-monitoring-pof/src/libs/zbxcommon/int128.c:225-232 | the two partial products with the halves of the factor add up to the product without overflow |
| `Int128.HalvingStep` | zabbix-web-monitoring-pof/src/libs/zbxcommon/int128.c:282-286 | halving divisor and mask keeps the division invariant |
| `Int128.SubtractingStep` | zabbix-web-monitoring-pof/src/libs/zbxcommon/int128.c:288-289 | subtracting the divisor adds the mask to the quotient and keeps the division invariant |
| `Int128.HighWordDivided` | zabbix-web-monitoring-pof/src/libs/zbxcommon/int128.c:262-270 | dividing the high word first leaves a remainder whose quotient fits in the low word |
| `Int128.MultiplyThenDivide` | zabbix-web-monitoring-pof/src/libs/zbxcommon/int128.c:225-294 | a product divided in place by a nonzero factor gives back the other factor |
| `Int128.MergeTrend` | zabbix-web-monitoring-pof/src/libs/zbxdbcache/dbcache.c:455-460 | merging num values of a known average into a sum of 64-bit values stays exact, and the new average is the exact quotient and fits in the one word that is written |
| `Getopt.ThreeReversals` | zabbix-web-monitoring-pof/src/libs/zbxcommon/zbxgetopt.c:158-183 | reversing a range and then its two parts exchanges two neighbouring blocks |
| `Getopt.ExchangeSwapsBlocks` | zabbix-web-monitoring-pof/src/libs/zbxcommon/zbxgetopt.c:158-183 | in terms of the three bounds of the ranges |
| `Getopt.Scanner.ReverseRange` | zabbix-web-monitoring-pof/src/libs/zbxcommon/zbxgetopt.c:162-167 | a loop of swaps from both ends reverses a range of argv and touches nothing else |
| `Getopt.Scanner.Exchange` | zabbix-web-monitoring-pof/src/libs/zbxcommon/zbxgetopt.c:158-183 | exactly the block swap of the skipped operands with the options behind them, and the bounds follow the moved block |
| `Getopt.Scanner.constructor` | zabbix-web-monitoring-pof/src/libs/zbxcommon/zbxgetopt.c:254-278 | before the first call the whole command line is ahead |
| `Getopt.Scanner.GetOpt` | zabbix-web-monitoring-pof/src/libs/zbxcommon/zbxgetopt.c:237-589 | one call reports the next event of the scan of the original command line and has its effect on zbx_optopt and flag variables, or EOF exactly when there is none, with argv rearranged and the index at the first operand |
| `Getopt.Scanner.SkipOperands` | zabbix-web-monitoring-pof/src/libs/zbxcommon/zbxgetopt.c:282-304 | passes operands without changing what the scan comes to |
| `Getopt.Scanner.EndOfOptions` | zabbix-web-monitoring-pof/src/libs/zbxcommon/zbxgetopt.c:311-322 | "--" ends the scan: it counts with the options and everything behind it with the operands |
| `Getopt.Scanner.FindLong` | zabbix-web-monitoring-pof/src/libs/zbxcommon/zbxgetopt.c:385-429 | the loop over the long options computes the look-up: an exact name wins, an ambiguous or unabbreviable one is rejected |
| `Getopt.Scanner.LongOption` | zabbix-web-monitoring-pof/src/libs/zbxcommon/zbxgetopt.c:359-510 | one long option: report, argument, how many elements it takes, and the variable its flag sets |
| `Getopt.Scanner.ShortOption` | zabbix-web-monitoring-pof/src/libs/zbxcommon/zbxgetopt.c:512-588 | one character of a cluster: report, argument, what is left, and zbx_optopt on errors |
| `Getopt.Scanner.ScanAll` | zabbix-web-monitoring-pof/src/libs/zbxcommon/zbxgetopt.c:237-589 | the run of calls until the first EOF terminates, and its reports and effects are those of the specification on the original command line |
| `Getopt.ScanIsStable` | zabbix-web-monitoring-pof/src/libs/zbxcommon/zbxgetopt.c:280-357 | options with their arguments and operands are a merge of the command line that keeps the order of both |
| `Getopt.RestAreOperands` | zabbix-web-monitoring-pof/src/libs/zbxcommon/zbxgetopt.c:292-304 | what is left over are operands (without a leading dash, or a lone dash), and behind them, if there is more, exactly what followed a "--" that ended the options; for every command line |
| `Getopt.ReportsAreNotEof` | zabbix-web-monitoring-pof/src/libs/zbxcommon/zbxgetopt.c:327-334 | no report is EOF, so a run of calls ends only at the end of the scan; for signed and unsigned char |
| `Getopt.LayoutExchanged` | zabbix-web-monitoring-pof/src/libs/zbxcommon/zbxgetopt.c:287-290 | the exchange keeps the layout of options, operands and unread elements |
| `Getopt.LayoutTakes` | zabbix-web-monitoring-pof/src/libs/zbxcommon/zbxgetopt.c:355-588 | passing an option and its argument extends the options in order |
| `Getopt.DashesEnd` | zabbix-web-monitoring-pof/src/libs/zbxcommon/zbxgetopt.c:311-322 | putting "--" in front of the operands gives the final arrangement |
| `Getopt.ParseCommandLine` | zabbix-web-monitoring-pof/src/libs/zbxcommon/zbxgetopt.c:591-603 | parsing from zbx_optind = 0 to the first EOF leaves a stable partition of argv[1..], with all reports and effects, and argv[0] in place |
| `GetoptForms.KindIsDeclared` | zabbix-web-monitoring-pof/src/libs/zbxcommon/zbxgetopt.c:515-545 | an option string rendered from a declaration gives each character the arity of its first declaration: none, required for one colon, optional for two; undeclared characters and the colon are unknown |
| `GetoptForms.CodeIsChar` | zabbix-web-monitoring-pof/src/libs/zbxcommon/zbxgetopt.c:515-587 | a character is returned as the int that its char converts to, signed or unsigned |
| `GetoptForms.LookUpFinds` | zabbix-web-monitoring-pof/src/libs/zbxcommon/zbxgetopt.c:385-429 | the search finds option i if and only if the key is its name and no earlier one, or abbreviates it, no other option, and it may be abbreviated |
| `GetoptForms.FlagsAreRead` | zabbix-web-monitoring-pof/src/libs/zbxcommon/zbxgetopt.c:512-538 | a cluster of options without arguments and of unknown characters is reported one by one, each unknown one as an error noted in zbx_optopt |
| `GetoptForms.LastIsRead` | zabbix-web-monitoring-pof/src/libs/zbxcommon/zbxgetopt.c:539-587 | the option with an argument that ends a cluster gets the rest of the element, else the next element if it must have one; a missing one is an error, or a colon if the option string begins with one |
| `GetoptForms.LongIsRead` | zabbix-web-monitoring-pof/src/libs/zbxcommon/zbxgetopt.c:431-485 | a long option gets what follows = or #, or the next element, is reported by its value or by zero with the value stored, and the two errors of a refused and a missing argument |
| `GetoptForms.UnknownIsRead` | zabbix-web-monitoring-pof/src/libs/zbxcommon/zbxgetopt.c:410-508 | a key that stands for no option, because unknown, ambiguous or not to be abbreviated, is one error |
| `GetoptForms.CommandLineIsRead` | zabbix-web-monitoring-pof/src/libs/zbxcommon/zbxgetopt.c:237-589 | round trip: a list of options with arguments and operands, rendered as a command line, scans to exactly their reports and effects, the elements of the options and the operands, each in order |
| `GetoptForms.AllAreWritten` | zabbix-web-monitoring-pof/src/libs/zbxcommon/zbxgetopt.c:237-589 | every sequence of elements is rendered from such a list, so the round trip says what every command line means |
| `GetoptForms.LastComplaintStays` | zabbix-web-monitoring-pof/src/libs/zbxcommon/zbxgetopt.c:536-574 | zbx_optopt is the character of the last complaint |
| `GetoptForms.LastStoreStays` | zabbix-web-monitoring-pof/src/libs/zbxcommon/zbxgetopt.c:479-483 | the variable of a flag holds the value last stored |
| `GetoptForms.ParseWritten` | zabbix-web-monitoring-pof/src/libs/zbxcommon/zbxgetopt.c:591-603 | the round trip on argv: parsing what was rendered reports the list it was rendered from, leaves exactly its operands behind the returned index, and exactly its options before it |
| `ActiveBuffer.VictimInside` | zabbix-web-monitoring-pof/src/zabbix_agent/active.c:762-797 | in a full buffer the eviction scans always stop inside it, and a persistent victim only falls to a value of the same item that is not persistent |
| `ActiveBuffer.AdmittedBounded` | zabbix-web-monitoring-pof/src/zabbix_agent/active.c:750-823 | accepting a value keeps count <= size, the counter above the number of persistent elements by exactly the displaced ones, and at most half the size |
| `ActiveBuffer.RunIsSound` | zabbix-web-monitoring-pof/src/zabbix_agent/active.c:568-828 | over any run with any sending outcomes: order, conservation, fair evictions and bounds |
| `ActiveBuffer.DeliveredInOrder` | zabbix-web-monitoring-pof/src/zabbix_agent/active.c:659-680 | what the server has got followed by what is buffered is a subsequence of the accepted values |
| `ActiveBuffer.PersistentSurvives` | zabbix-web-monitoring-pof/src/zabbix_agent/active.c:748-821 | an accepted persistent value is delivered or buffered exactly once unless it was evicted by a later value of its item that is not persistent |
| `ActiveBuffer.CountersBounded` | zabbix-web-monitoring-pof/src/zabbix_agent/active.c:750-821 | number of persistent elements <= pcount <= size / 2 in every reachable buffer, with equality if and only if none has been displaced since the buffer was last emptied |
| `ActiveBuffer.CounterCanExceed` | zabbix-web-monitoring-pof/src/zabbix_agent/active.c:764-772 | a run after which the counter is above the number |
| `ActiveBuffer.SendsWhenPressing` | zabbix-web-monitoring-pof/src/zabbix_agent/active.c:582-593 | sending has an effect exactly for one of the three reasons, with the exact new state for success and failure |
| `ActiveBuffer.NothingOverdue` | zabbix-web-monitoring-pof/src/zabbix_agent/active.c:582-673 | in every run, an operation that sends and succeeds either delivers the whole buffer as one batch or finds nothing old, no full buffer and less than half of it persistent |
| `ActiveBuffer.TimesAreThoseOfTheRun` | zabbix-web-monitoring-pof/src/zabbix_agent/active.c:668-688 | after every run first_error is the time of the first failure since the last success, or zero if there is none, and lastsent that of the last success |
| `ActiveBuffer.AdmittedPutsIn` | zabbix-web-monitoring-pof/src/zabbix_agent/active.c:762-797 | which element of a full buffer makes room |
| `ActiveBuffer.AcceptsAllOthers` | zabbix-web-monitoring-pof/src/zabbix_agent/active.c:748-823 | in every run one more value is refused exactly if it is persistent and the counter is at half the size, and else put in the place stated |
| `ActiveBuffer.NumberedIsSubsequence` | zabbix-web-monitoring-pof/src/zabbix_agent/active.c:748-821 | elements with increasing arrival numbers form a subsequence |
| `ActiveBuffer.Buffer.constructor` | zabbix-web-monitoring-pof/src/zabbix_agent/active.c:568-695 | the empty buffer is within its bounds |
| `ActiveBuffer.Buffer.SendBuffer` | zabbix-web-monitoring-pof/src/zabbix_agent/active.c:568-695 | with values buffered that have waited long enough, or a full buffer, or half of it persistent, success empties the buffer and sets lastsent, failure keeps it and marks the first error; in all other cases nothing changes |
| `ActiveBuffer.Buffer.ProcessValue` | zabbix-web-monitoring-pof/src/zabbix_agent/active.c:726-828 | first tries to send; then refuses exactly a persistent value that finds the counter at half the size, and puts every other one last, in a full buffer in place of the oldest value of its item, or if there is none or the value is persistent, of the oldest one that is not persistent |
| `ActiveBuffer.Buffer.FindVictim` | zabbix-web-monitoring-pof/src/zabbix_agent/active.c:764-782 | the two scans compute the specified victim |
| `ActiveBuffer.Buffer.ShiftDown` | zabbix-web-monitoring-pof/src/zabbix_agent/active.c:791-792 | the move closes exactly the gap of the victim |
| `LogFile.ScanLine` | zabbix-web-monitoring-pof/src/libs/zbxcommon/file.c:107-123 | the scan finds the first LF, CR or CR LF in units of 1, 2 or 4 bytes and counts it with the line |
| `LogFile.LineLengthInside` | zabbix-web-monitoring-pof/src/libs/zbxcommon/file.c:107-123 | a line is empty only if less than a unit was read, and it reaches behind what was read if and only if its line end is torn |
| `LogFile.LineLengthOfRead` | zabbix-web-monitoring-pof/src/libs/zbxcommon/file.c:107-123 | unless that happens the line depends only on the bytes read |
| `LogFile.FirstEndIsFirst` | zabbix-web-monitoring-pof/src/libs/zbxcommon/file.c:107-123 | no unit before the line end that is found is a line end |
| `LogFile.TornLineOverruns` | zabbix-web-monitoring-pof/src/libs/zbxcommon/file.c:117-121 | a concrete torn line end: three bytes read, four reported |
| `LogFile.ZbxRead` | zabbix-web-monitoring-pof/src/libs/zbxcommon/file.c:55-132 | fills the buffer from the offset and reports the first line; bytes behind those read keep their old contents |
| `LogFile.ProcessLog` | zabbix-web-monitoring-pof/src/zabbix_agent/logfiles.c:613-680 | reads one line at lastlogsize, from the start of a file that has shrunk, from the end if old data are skipped; no value means the end of the file, failure that the file could not be found, opened, positioned or read |
| `LogFile.TornLineIsReadAgain` | zabbix-web-monitoring-pof/src/zabbix_agent/logfiles.c:638-670 | the same on a file: with zeros on the stack a torn line is longer than the file, and the next reading starts over and finds it again |
| `LogText.UnitIs` | zabbix-web-monitoring-pof/src/libs/zbxcommon/file.c:68-105 | in each of the five encodings exactly the characters LF and CR are taken for them |
| `LogText.FirstLineOfText` | zabbix-web-monitoring-pof/src/libs/zbxcommon/file.c:107-123 | of a text in any encoding the line is what stands before the first LF, CR LF or CR, with it, or all of it if there is none |
| `LogText.ReadsFirstLine` | zabbix-web-monitoring-pof/src/zabbix_agent/logfiles.c:652-670 | on a file: of the next 64 KiB, which are a text in the encoding, a reading yields the first line and its end |
| `LogText.ShrunkIsReadAnew` | zabbix-web-monitoring-pof/src/zabbix_agent/logfiles.c:638-646 | a file that has become shorter is read from its start, and skipping goes to its end |
| `LogFile.FailedReading` | zabbix-web-monitoring-pof/src/zabbix_agent/active.c:975-983 | if the file cannot be read the metric is no longer supported, its position is kept, and the last value in the buffer is one of its item without text and not persistent |
| `LogFile.LogCheck.Check` | zabbix-web-monitoring-pof/src/zabbix_agent/active.c:922-983 | one whole check leaves lastlogsize, flags and the buffer as the walk over its readings says; if the first reading fails, spelt out: unsupported, position kept, and the complaint last in the buffer |
| `LogFile.LogCheck.Turn` | zabbix-web-monitoring-pof/src/zabbix_agent/active.c:922-960 | one turn of the loop: read, match, offer, and either stop or go on |
| `LogRuns.ReadingFollows` | zabbix-web-monitoring-pof/src/zabbix_agent/logfiles.c:638-670 | in a file that only grows a reading yields the bytes that begin where the last one ended |
| `LogRuns.WholeIsUntorn` | zabbix-web-monitoring-pof/src/libs/zbxcommon/file.c:107-123 | files of whole units, among them all files of single bytes, have no torn line ends |
| `LogRuns.CheckFollows` | zabbix-web-monitoring-pof/src/zabbix_agent/active.c:922-970 | the lines one check consumes tile the file up to the new lastlogsize, the buffer accepts exactly one value for each matching one, in order, with what matching its bytes gives, the position behind it, and protection from being lost; a refused line begins at lastlogsize and the buffer is then half persistent |
| `LogRuns.FollowLog` | zabbix-web-monitoring-pof/src/zabbix_agent/active.c:922-976 | the same for one check on the buffer itself: what the server has got or is buffered of the item grows by exactly the values of the matching lines between the old and the new lastlogsize |
| `LogRuns.CheckEnds` | zabbix-web-monitoring-pof/src/zabbix_agent/active.c:922-983 | a check ends only with a failed reading whose complaint is the last value in the buffer, with a refusal, at one of the two limits or at the end of the file; each value it offers carries the time of its reading |
| `LogRuns.NoFlood` | zabbix-web-monitoring-pof/src/zabbix_agent/active.c:962-968 | a check consumes at most 4 * limit lines and offers at most limit values |
| `LogRuns.RoundsComplete` | zabbix-web-monitoring-pof/src/zabbix_agent/active.c:922-970 | over any number of checks, whatever happens to the buffer in between, the lines tile the file and the accepted values of the item are those of the matching ones |
| `LogRuns.LinesArriveOnce` | zabbix-web-monitoring-pof/src/zabbix_agent/active.c:568-976 | end to end: over any number of checks with any sending outcomes and other values in between, the values of the item that are delivered or buffered are as many as the matching lines of the consumed part of the file, and the i-th has the text, the position, host and key of the i-th line and is persistent |
| `LogRuns.NoneMissing` | zabbix-web-monitoring-pof/src/zabbix_agent/active.c:748-821 | if no value of the item was evicted, filtering what is delivered and buffered gives what filtering the accepted values gives |
| `Telnet.ConvertTelnetToUnixEol` | zabbix-web-monitoring-pof/src/libs/zbxcomms/telnet.c:222-253 | the in-place conversion computes ToUnix of the original text and touches nothing behind it: writes never overtake reads |
| `Telnet.ConvertUnixToTelnetEol` | zabbix-web-monitoring-pof/src/libs/zbxcomms/telnet.c:255-273 | the other conversion computes ToTelnet in a buffer of twice the size |
| `Telnet.PrepareCommand` | zabbix-web-monitoring-pof/src/libs/zbxcomms/telnet.c:426-438 | what is sent has CR and LF only in pairs, fits the buffers, and the echo of it, whatever follows, converts to the command and a line end |
| `Telnet.ToUnixHasNoCR` | zabbix-web-monitoring-pof/src/libs/zbxcomms/telnet.c:222-253 | the output has no CR and is not longer than the input |
| `Telnet.ToUnixFixes` | zabbix-web-monitoring-pof/src/libs/zbxcomms/telnet.c:222-253 | a text is left alone if and only if it has no CR |
| `Telnet.ToUnixIdempotent` | zabbix-web-monitoring-pof/src/libs/zbxcomms/telnet.c:222-253 | converting twice is converting once |
| `Telnet.ToTelnetLength` | zabbix-web-monitoring-pof/src/libs/zbxcomms/telnet.c:255-273 | the output is longer by the number of line ends, so at most twice as long |
| `Telnet.ToTelnetOnTheWire` | zabbix-web-monitoring-pof/src/libs/zbxcomms/telnet.c:432-434 | of a CR-free text every CR sent is followed by LF and every LF preceded by CR |
| `Telnet.RoundTripFollowedBy` | zabbix-web-monitoring-pof/src/libs/zbxcomms/telnet.c:426-434 | a CR-free text comes back through both conversions, whatever text follows it |
| `Telnet.RoundTrip` | zabbix-web-monitoring-pof/src/libs/zbxcomms/telnet.c:426-434 | the two conversions give a text back if and only if it has no CR |
| `Telnet.ConvertsCrLf` | zabbix-web-monitoring-pof/src/libs/zbxcomms/telnet.c:230-234 | behind any CR-free text that does not end in LF, CR LF becomes one LF and the rest is converted on its own |
| `Telnet.ConvertsCrNul` | zabbix-web-monitoring-pof/src/libs/zbxcomms/telnet.c:235-238 | behind such a text CR NUL disappears |
| `Telnet.ConvertsLfCr` | zabbix-web-monitoring-pof/src/libs/zbxcomms/telnet.c:239-243 | behind such a text LF CR becomes one LF |
| `Telnet.ConvertsLoneCr` | zabbix-web-monitoring-pof/src/libs/zbxcomms/telnet.c:244-247 | behind such a text a CR followed by neither LF nor NUL, or by nothing, becomes LF |
| `Actions.CheckActionConditions` | zabbix-web-monitoring-pof/src/zabbix_server/actions.c:1331-1411 | the single pass with early exits decides conjunction over types of the disjunction within each type, plain conjunction or plain disjunction; no rows are met; the type number 255 is the one exception |
| `Actions.SameType` | zabbix-web-monitoring-pof/src/zabbix_server/actions.c:1361-1365 | another condition of the current type is a disjunction |
| `Actions.NewType` | zabbix-web-monitoring-pof/src/zabbix_server/actions.c:1366-1372 | a condition of a new type after one that is met is a conjunction |
| `Actions.TypeFails` | zabbix-web-monitoring-pof/src/zabbix_server/actions.c:1368-1369 | when a new type begins and the last one is not met, no later row can change the answer |
| `Actions.OrderIsIrrelevant` | zabbix-web-monitoring-pof/src/zabbix_server/actions.c:1331-1411 | neither the order of conditions nor repetitions change what is meant |
| `Actions.OnlyTypeIsNoType` | zabbix-web-monitoring-pof/src/zabbix_server/actions.c:1339-1372 | when the exception matters: all conditions have the type 255, and what they should mean is whether one of them holds |
| `Actions.NoTypeIsMet` | zabbix-web-monitoring-pof/src/zabbix_server/actions.c:1339-1372 | a single condition of the type 255 that does not hold: not met by meaning, met by the code |
| `CpuStat.History.UpdateCpuCounters` | zabbix-web-monitoring-pof/src/zabbix_agent/cpustat.c:231-256 | an update of the ring appends the sample and, when it is full, drops the oldest |
| `CpuStat.HoldsLatest` | zabbix-web-monitoring-pof/src/zabbix_agent/cpustat.c:237-243 | after any number of updates the history is the last 901 samples, or all, in order |
| `CpuStat.History.FindBase` | zabbix-web-monitoring-pof/src/zabbix_agent/cpustat.c:667-672 | the search for the base sample wraps around the ring and ends at the oldest one in the window that could be read |
| `CpuStat.History.GetCpustat` | zabbix-web-monitoring-pof/src/zabbix_agent/cpustat.c:609-684 | the share of a state over 1, 5 or 15 minutes, zero without samples, failure for bad arguments or if the last sample could not be read; else the part of the state, in percent, in what has been counted since the oldest readable sample of the last 60, 300 or 900, or in all that a single sample has counted, in 64-bit arithmetic |
| `CpuStat.TotalIsExact` | zabbix-web-monitoring-pof/src/zabbix_agent/cpustat.c:674-676 | for counters that do not run backwards the 64-bit differences add up without wrap-around |
| `CpuStat.TotalWraps` | zabbix-web-monitoring-pof/src/zabbix_agent/cpustat.c:674-675 | differences added up in 64-bit arithmetic are the difference of the sums in 64-bit arithmetic, for any counters |
| `CpuStat.ShareIsShare` | zabbix-web-monitoring-pof/src/zabbix_agent/cpustat.c:642-681 | what is computed is that part, for every window, state and period |
| `CpuStat.SharesArePercentages` | zabbix-web-monitoring-pof/src/zabbix_agent/cpustat.c:674-681 | then every share is between 0 and 100, and the shares of all states add up to 100 unless nothing was counted |

## Left out

- Memory: allocators appear only as success or failure of the two allocations in hash set insertion; the capacity of a slot's entry array, `free` and byte layout are not modelled, and container sizes are mathematical integers.
- Hash functions are parameters, so how well they spread keys is not considered; comparison functions are parameters that must be a total preorder (heap) or an equivalence that respects the hash (hash set).
- Calls that end in `exit(FAIL)` (inserting a key twice or removing an unknown key in a direct heap, minimum of an empty heap, removal through a bad iterator) are preconditions.
- `zbx_hashset_insert_ext` with an offset, which copies a part of the data only, is modelled for offset 0; destroy functions and heaps and maps inside shared memory are not modelled.
- Hashmap.HashMap.Grow: the slot table is a sequence that is reassigned, so reallocation of a slot's entries and pointers into the table are not captured.
- Hashset.HashSet.constructor: a failed allocation of the slots leaves the set without them and unusable; only the successful case is modelled.
- Getopt.Scanner.constructor: covers the order PERMUTE, so the option string does not begin with - or +, and no option reports EOF; error messages and `getopt_long_only` are left out.
- Getopt.Scanner.GetOpt: says nothing about calls after EOF.
- Getopt.ParseCommandLine: has the restrictions of the scanner.
- GetoptForms.CommandLineIsRead: for option strings that are renderings of a declaration; others, as with three colons in a row, have the results about the scan only.
- Getopt.ReportsAreNotEof: an option string with the byte 255 is excluded where char is signed, because the call for that option returns EOF.
- Sockets, JSON, clocks and the server's answer: whether sending succeeds is a parameter of each attempt, and so is the time; the source only logs the answer.
- ActiveBuffer.Buffer.ProcessValue: the value is given as a whole, with zeros for what the caller left out; the time it was buffered is a number of seconds.
- LogFile.ProcessLog: conversion to UTF-8, trimming and the regular expression are one arbitrary function from the bytes of a line to an optional value; the encoding is given as unit size and byte order, without the table of encoding names; a file is a sequence of bytes that is read in full, or all errors on the way to it are one.
- LogFile.LogCheck.Check: parsing the item key and its parameters is not modelled, so their errors are not either; the limit is maxlines_persec * refresh; rotated logs (logrt) and event logs are left out.
- LogRuns.LinesArriveOnce: holds for a file that only grows, has no torn line ends and is not read by another metric with the same key.
- Telnet: option negotiation, reading from the socket, removal of echo and prompts.
- Actions: what a single condition checks is a fixed answer for each row, and the query is the ordered sequence of rows.
- CpuStat.History.GetCpustat: the share is a real number without rounding; locking, a collector that has not been started, the look-up of the processor by number and reading the counters from the system are left out.
- Other parts of the repository: the Java tools, SQL generation, escalations, discovery, configuration tables and process start-up.
