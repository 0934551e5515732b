# DataStructures in Dafny

A verified model of the tree and heap containers in the C++ header
library NocturnalShadow/DataStructures. The model covers:

- **OrderStatisticBST.** A red-black tree with a subtree size in every
  node. It supports Insert, Erase, Find, FindByRank, Rank and InOrder.
- **RedBlackBST.** The same red-black tree without sizes, storing key/data
  maps.
- **RB_Tree.** A red-black set of keys with its own Node methods
  `PlaceTo` and `ReplaceWith`.
- **PersistentBST.** An immutable search tree with path copying: every
  Insert or Erase returns a new version that shares the untouched
  subtrees.
- **SplayBST.** A splay tree whose Insert and Erase are built from Split
  and Merge.
- **OptimalBST.** A search tree built once from key frequencies with the
  least weighted path length by the interval (dynamic-programming) table.
  Afterwards every successful Find counts the visit and rotates the found
  node upward while that makes the tree cheaper (`Optimize`).
- **OptimalBSTree.** The static variant of the optimal tree. Its Init
  links the nodes while it fills the table.
- **BinomialHeap.** A min-heap kept as a list of binomial trees of
  ascending order, with Push, Pop, First and Merge.

How the model is built:

- **Pointer structures live in an arena.** The node objects of the
  pointer-based containers are cells of a sequence (`Slot`: key, colour or
  counter, parent, left, right). `NIL` (-1) plays the null pointer. Every
  class keeps a ghost `tree` that the links realise (`Linked`).
- **The methods follow the source's pointer updates step by step**
  (rotations, re-parenting, case analysis). Their `ensures` tie the new
  arena and the ghost tree to functions on trees. The lemmas of modules
  `RedBlack`, `RedBlackDeletion`, `SizedTrees`, `Splay` and `OptimalCosts`
  then prove what the containers promise:
  - the red-black invariants;
  - the subtree sizes;
  - the in-order contents;
  - the key/value map;
  - optimality of the built tree;
  - the heap order and the multiset of values.
- **Values stay values.** PersistentBST, whose nodes are immutable shared
  pointers, and the binomial trees are datatypes and functions.
  BinomialHeap's list of trees is a class whose methods reassign the list.

## Model

| member | source | states |
|---|---|---|
| OrderStatistic.OrderStatisticBST.constructor | Order_Statistic_Tree/OrderStatisticBST.h:26-27 | a new tree is valid and empty |
| OrderStatistic.OrderStatisticBST.LeftSize | Order_Statistic_Tree/OrderStatisticBST.h:151-152 | the size of the left child is the number of nodes in the left subtree (0 when absent) |
| OrderStatistic.OrderStatisticBST.RightSize | Order_Statistic_Tree/OrderStatisticBST.h:153-154 | the same for the right subtree |
| OrderStatistic.OrderStatisticBST.GrandFather | Order_Statistic_Tree/OrderStatisticBST.h:189-196 | the node two levels up, NIL exactly when the node is null or has fewer than two ancestors |
| OrderStatistic.OrderStatisticBST.Uncle | Order_Statistic_Tree/OrderStatisticBST.h:199-208 | the sibling of the parent, NIL when there is no grandparent |
| OrderStatistic.OrderStatisticBST.Brother | Order_Statistic_Tree/OrderStatisticBST.h:211-221 | the sibling, NIL at the root |
| OrderStatistic.OrderStatisticBST.SetColor | Order_Statistic_Tree/OrderStatisticBST.h:158-159 | toRed/toBlack repaint one node; keys, ids, links and sizes are unchanged |
| OrderStatistic.OrderStatisticBST.RotateLeft | Order_Statistic_Tree/OrderStatisticBST.h:224-251 | the tree becomes the left rotation at the node, the in-order sequence is unchanged and every size stays exact |
| OrderStatistic.OrderStatisticBST.RotateRight | Order_Statistic_Tree/OrderStatisticBST.h:254-281 | the mirror image of RotateLeft |
| OrderStatistic.OrderStatisticBST.Resize | Order_Statistic_Tree/OrderStatisticBST.h:229-231 | after a rotation the risen node takes the old size and the lowered node gets its two children's sizes plus one |
| OrderStatistic.OrderStatisticBST.Relink | Order_Statistic_Tree/OrderStatisticBST.h:226-250 | the pointer updates of a rotation; the root moves to the pivot when the rotated node was the root |
| OrderStatistic.RotateSized | Order_Statistic_Tree/OrderStatisticBST.h:229-231 | the size updates of a rotation leave every size exact in the rotated tree |
| OrderStatistic.OrderStatisticBST.Insert | Order_Statistic_Tree/OrderStatisticBST.h:284-289 | the tree stays a valid red-black tree with exact sizes; the entry is inserted at the position after all smaller keys and before all keys at least as large |
| OrderStatistic.OrderStatisticBST.InsertNode | Order_Statistic_Tree/OrderStatisticBST.h:359-372 | the new red leaf hangs where the search for its key ends; every ancestor's size grew by one |
| OrderStatistic.OrderStatisticBST.Descend | Order_Statistic_Tree/OrderStatisticBST.h:364-370 | one step of the descent: go right exactly when the key is greater, increment the node's size |
| OrderStatistic.DescendState | Order_Statistic_Tree/OrderStatisticBST.h:364-370 | a descent step keeps the search window and the "ancestors one ahead" size invariant |
| OrderStatistic.OrderStatisticBST.Attach | Order_Statistic_Tree/OrderStatisticBST.h:361-363 | the new node is linked at the empty position with its parent pointer set |
| OrderStatistic.AttachState | Order_Statistic_Tree/OrderStatisticBST.h:361-363 | hanging the new leaf makes every size exact again |
| OrderStatistic.OrderStatisticBST.InsertCase1 | Order_Statistic_Tree/OrderStatisticBST.h:375-382 | from the insertion invariant, cases 1-5 together end in a red-black tree with the same in-order sequence |
| OrderStatistic.OrderStatisticBST.InsertCase2 | Order_Statistic_Tree/OrderStatisticBST.h:385-390 | under a black parent the tree is already red-black |
| OrderStatistic.OrderStatisticBST.InsertCase3 | Order_Statistic_Tree/OrderStatisticBST.h:393-408 | with a red parent: a red uncle recolours and recurses at the grandparent; otherwise case 4; both end red-black |
| OrderStatistic.OrderStatisticBST.InsertCase4 | Order_Statistic_Tree/OrderStatisticBST.h:411-427 | an inner grandchild is rotated outward and case 5 finishes; the result is red-black |
| OrderStatistic.OrderStatisticBST.InsertCase5 | Order_Statistic_Tree/OrderStatisticBST.h:430-442 | recolour and rotate at the grandparent: the result is red-black with the same in-order sequence |
| OrderStatistic.OrderStatisticBST.MinNode | Order_Statistic_Tree/OrderStatisticBST.h:445-454 | the leftmost node below, i.e. the first element of the subtree's in-order sequence; NIL only for a null subtree |
| OrderStatistic.OrderStatisticBST.MaxNode | Order_Statistic_Tree/OrderStatisticBST.h:457-466 | the rightmost node below, the last in-order element |
| OrderStatistic.OrderStatisticBST.FindIn | Order_Statistic_Tree/OrderStatisticBST.h:469-480 | NIL exactly when the key is absent from the ordered subtree; otherwise a node holding the key |
| OrderStatistic.OrderStatisticBST.Find | Order_Statistic_Tree/OrderStatisticBST.h:336-339 | NIL exactly when no entry has the key; otherwise a node whose (key, data) is an entry |
| OrderStatistic.OrderStatisticBST.FindByRank | Order_Statistic_Tree/OrderStatisticBST.h:342-356 | for 1 <= rank <= n, the node at position rank of the in-order sequence; NIL outside that range |
| OrderStatistic.OrderStatisticBST.Rank | Order_Statistic_Tree/OrderStatisticBST.h:601-613 | the 1-based position of the node in the in-order sequence (inverse of FindByRank) |
| OrderStatistic.OrderStatisticBST.InOrder | Order_Statistic_Tree/OrderStatisticBST.h:617-625 | the nodes visited are the subtree's in-order sequence |
| OrderStatistic.OrderStatisticBST.Erase | Order_Statistic_Tree/OrderStatisticBST.h:292-333 | the tree stays valid red-black with exact sizes; an absent key changes nothing; otherwise exactly one entry with that key is removed and the rest keep their order |
| OrderStatistic.OrderStatisticBST.EraseLeaf | Order_Statistic_Tree/OrderStatisticBST.h:300-310 | erasing a childless target removes exactly its entry |
| OrderStatistic.OrderStatisticBST.RemoveChildless | Order_Statistic_Tree/OrderStatisticBST.h:302-308 | fixup (for a black node) and then the unlink: the tree is red-black without that node |
| OrderStatistic.OrderStatisticBST.RepairAround | Order_Statistic_Tree/OrderStatisticBST.h:302-304 | DeleteCase1 on the still-attached black node leaves a tree that is red-black once that node is read as absent |
| OrderStatistic.OrderStatisticBST.Release | Order_Statistic_Tree/OrderStatisticBST.h:95-116 | Node's destructor: unhooks the node from its parent and decrements every ancestor's size, making all sizes exact |
| OrderStatistic.OrderStatisticBST.SizeWalk | Order_Statistic_Tree/OrderStatisticBST.h:106-110 | the `parent->size--` walk to the root restores exact sizes |
| OrderStatistic.SizeWalkStep | Order_Statistic_Tree/OrderStatisticBST.h:106-110 | one step of that walk moves the "one ahead" mark from a node to its parent |
| OrderStatistic.UnlinkState | Order_Statistic_Tree/OrderStatisticBST.h:97-104 | cutting a childless node leaves its ancestors exactly one ahead |
| OrderStatistic.OrderStatisticBST.EraseInner | Order_Statistic_Tree/OrderStatisticBST.h:312-332 | erasing a target with a child removes exactly its entry: the in-order neighbour's key and data move into the target and the neighbour's cell goes |
| OrderStatistic.OrderStatisticBST.Replacement | Order_Statistic_Tree/OrderStatisticBST.h:312-317 | MinNode of the right subtree or MaxNode of the left one is the in-order neighbour of the target and has at most one child |
| OrderStatistic.OrderStatisticBST.TakeReplacement | Order_Statistic_Tree/OrderStatisticBST.h:312-319 | after MoveTo the target holds the neighbour's entry; the tree is unchanged otherwise |
| OrderStatistic.OrderStatisticBST.RemoveInner | Order_Statistic_Tree/OrderStatisticBST.h:312-332 | the target's entry is replaced by the neighbour's and the neighbour's position disappears |
| OrderStatistic.OrderStatisticBST.Remove | Order_Statistic_Tree/OrderStatisticBST.h:320-332 | the replacement node is removed (splice or fixup then unlink), red-black kept |
| OrderStatistic.OrderStatisticBST.Splice | Order_Statistic_Tree/OrderStatisticBST.h:320-328 | a node with one child is spliced out, the child blackened; sizes exact afterwards |
| OrderStatistic.OrderStatisticBST.SpliceLink | Order_Statistic_Tree/OrderStatisticBST.h:167-181 | the splice keeps the removed cell's parent link, so its destructor can still walk the ancestors |
| OrderStatistic.SpliceState | Order_Statistic_Tree/OrderStatisticBST.h:167-181 | splicing out a node leaves its ancestors exactly one ahead |
| OrderStatistic.OrderStatisticBST.BlackenChild | Order_Statistic_Tree/OrderStatisticBST.h:326-327 | painting the red child black restores the red-black invariant |
| OrderStatistic.OrderStatisticBST.MoveTo | Order_Statistic_Tree/OrderStatisticBST.h:161-166 | the target takes the source's key and data; the in-order sequence changes only at the target's position |
| OrderStatistic.MoveToState | Order_Statistic_Tree/OrderStatisticBST.h:161-166 | the new key lands at the target's in-order position and sizes are untouched |
| OrderStatistic.OrderStatisticBST.ReplaceIfNotNull | Order_Statistic_Tree/OrderStatisticBST.h:167-181 | corrected: the child takes the node's place and the node keeps its parent pointer |
| OrderStatistic.OrderStatisticBST.ReplaceIfNotNullAsWritten | Order_Statistic_Tree/OrderStatisticBST.h:167-181 | as written: the same splice but the removed node's parent becomes null |
| OrderStatistic.OrderStatisticBST.SpliceAsWritten | Order_Statistic_Tree/OrderStatisticBST.h:167-181 | with the as-written splice the ancestors stay one ahead and the class invariant fails |
| OrderStatistic.SizedStale | Order_Statistic_Tree/OrderStatisticBST.h:104-110 | if no size walk follows, ancestors that are one ahead mean the sizes are not exact |
| OrderStatistic.OrderStatisticBST.DeleteCase1 | Order_Statistic_Tree/OrderStatisticBST.h:483-488 | from the deletion invariant (one black level missing at the node), cases 1-6 end in a red-black tree with the same in-order sequence |
| OrderStatistic.OrderStatisticBST.DeleteCase2 | Order_Statistic_Tree/OrderStatisticBST.h:491-506 | a red brother is rotated above the parent, then case 3; red-black at the end |
| OrderStatistic.OrderStatisticBST.TurnRedBrother | Order_Statistic_Tree/OrderStatisticBST.h:493-504 | after that rotation the node is two levels lower with a black brother and the deletion invariant holds |
| OrderStatistic.OrderStatisticBST.DeleteCase3 | Order_Statistic_Tree/OrderStatisticBST.h:509-525 | all-black family: the brother turns red and the repair moves to the parent |
| OrderStatistic.OrderStatisticBST.DeleteCase4 | Order_Statistic_Tree/OrderStatisticBST.h:528-545 | red parent with black nephews: swap colours and stop; otherwise case 5 |
| OrderStatistic.OrderStatisticBST.DeleteCase5 | Order_Statistic_Tree/OrderStatisticBST.h:548-578 | a red near nephew is rotated outward and case 6 finishes (absent nephews read black; see Findings) |
| OrderStatistic.OrderStatisticBST.DeleteCase6 | Order_Statistic_Tree/OrderStatisticBST.h:581-598 | recolour and rotate at the parent: the missing black level is restored |
| RedBlackBSTs.RedBlackBST.constructor | Red_Black_Tree/RedBlackBST.h:26-27 | a new map is valid and empty |
| RedBlackBSTs.RedBlackBST.GrandFather | Red_Black_Tree/RedBlackBST.h:168-175 | the node two levels up or NIL |
| RedBlackBSTs.RedBlackBST.Uncle | Red_Black_Tree/RedBlackBST.h:178-187 | the parent's sibling or NIL |
| RedBlackBSTs.RedBlackBST.Brother | Red_Black_Tree/RedBlackBST.h:190-200 | the sibling or NIL |
| RedBlackBSTs.RedBlackBST.SetColor | Red_Black_Tree/RedBlackBST.h:141-142 | repaint one node, nothing else changes |
| RedBlackBSTs.RedBlackBST.Relink | Red_Black_Tree/RedBlackBST.h:203-226 | the pointer updates of a rotation |
| RedBlackBSTs.RedBlackBST.RotateLeft | Red_Black_Tree/RedBlackBST.h:203-226 | the tree becomes its left rotation at the node; the in-order sequence is unchanged |
| RedBlackBSTs.RedBlackBST.RotateRight | Red_Black_Tree/RedBlackBST.h:229-252 | mirror image |
| RedBlackBSTs.RedBlackBST.Insert | Red_Black_Tree/RedBlackBST.h:255-260 | stays valid red-black; the entry goes in after all smaller keys and before the others |
| RedBlackBSTs.RedBlackBST.InsertNode | Red_Black_Tree/RedBlackBST.h:313-328 | the red leaf hangs where the search ends, between its neighbours |
| RedBlackBSTs.RedBlackBST.Attach | Red_Black_Tree/RedBlackBST.h:315-318 | links the new node at the empty position |
| RedBlackBSTs.RedBlackBST.InsertCase1 | Red_Black_Tree/RedBlackBST.h:331-338 | insertion fixup ends red-black with the same in-order sequence |
| RedBlackBSTs.RedBlackBST.InsertCase2 | Red_Black_Tree/RedBlackBST.h:341-346 | black parent: done |
| RedBlackBSTs.RedBlackBST.InsertCase3 | Red_Black_Tree/RedBlackBST.h:349-364 | red uncle: recolour and recurse |
| RedBlackBSTs.RedBlackBST.InsertCase4 | Red_Black_Tree/RedBlackBST.h:367-383 | inner grandchild rotated outward |
| RedBlackBSTs.RedBlackBST.InsertCase5 | Red_Black_Tree/RedBlackBST.h:386-398 | recolour and rotate at the grandparent |
| RedBlackBSTs.RedBlackBST.MinNode | Red_Black_Tree/RedBlackBST.h:401-410 | first in-order node of the subtree |
| RedBlackBSTs.RedBlackBST.MaxNode | Red_Black_Tree/RedBlackBST.h:413-422 | last in-order node of the subtree |
| RedBlackBSTs.RedBlackBST.FindIn | Red_Black_Tree/RedBlackBST.h:425-436 | NIL exactly when the key is absent from the subtree |
| RedBlackBSTs.RedBlackBST.Find | Red_Black_Tree/RedBlackBST.h:307-310 | NIL exactly when no entry has the key; otherwise its (key, data) is an entry |
| RedBlackBSTs.RedBlackBST.InOrder | Red_Black_Tree/RedBlackBST.h:558-566 | visits the in-order sequence |
| RedBlackBSTs.RedBlackBST.DeleteCase1 | Red_Black_Tree/RedBlackBST.h:439-444 | deletion fixup (cases 1-6) ends red-black with the same in-order sequence |
| RedBlackBSTs.RedBlackBST.DeleteCase2 | Red_Black_Tree/RedBlackBST.h:447-462 | red brother rotated up |
| RedBlackBSTs.RedBlackBST.TurnRedBrother | Red_Black_Tree/RedBlackBST.h:449-460 | after the rotation the node has a black brother, invariant kept |
| RedBlackBSTs.RedBlackBST.DeleteCase3 | Red_Black_Tree/RedBlackBST.h:465-481 | all black: brother red, recurse at parent |
| RedBlackBSTs.RedBlackBST.DeleteCase4 | Red_Black_Tree/RedBlackBST.h:484-501 | red parent, black nephews: swap colours |
| RedBlackBSTs.RedBlackBST.DeleteCase5 | Red_Black_Tree/RedBlackBST.h:504-534 | near red nephew rotated outward (absent nephews read black; see Findings) |
| RedBlackBSTs.RedBlackBST.DeleteCase6 | Red_Black_Tree/RedBlackBST.h:537-554 | final recolour and rotation |
| RedBlackBSTs.RedBlackBST.Erase | Red_Black_Tree/RedBlackBST.h:263-304 | corrected: stays valid; an absent key changes nothing; otherwise exactly one entry with the key is removed |
| RedBlackBSTs.RedBlackBST.EraseAsWritten | Red_Black_Tree/RedBlackBST.h:263-304 | as written: the entries become Placed(old, i, j), i.e. the neighbour's key keeps the erased entry's data |
| RedBlackBSTs.RedBlackBST.EraseAt | Red_Black_Tree/RedBlackBST.h:263-304 | removal at a found node, with a payload move (corrected) or without one (as written) |
| RedBlackBSTs.RedBlackBST.EraseLeaf | Red_Black_Tree/RedBlackBST.h:270-281 | a childless target: exactly its entry goes |
| RedBlackBSTs.RedBlackBST.EraseInner | Red_Black_Tree/RedBlackBST.h:283-303 | a target with a child: the neighbour's key moves in and the neighbour's position goes |
| RedBlackBSTs.RedBlackBST.RemoveChildless | Red_Black_Tree/RedBlackBST.h:272-280 | fixup then unlink of a childless node |
| RedBlackBSTs.RedBlackBST.RepairAround | Red_Black_Tree/RedBlackBST.h:273-275 | fixup on the still-attached node |
| RedBlackBSTs.RedBlackBST.Destroy | Red_Black_Tree/RedBlackBST.h:93-106 | Node's destructor unhooks a node from its parent |
| RedBlackBSTs.RedBlackBST.Replacement | Red_Black_Tree/RedBlackBST.h:283-288 | the replacement is the in-order neighbour and has at most one child |
| RedBlackBSTs.RedBlackBST.TakeReplacement | Red_Black_Tree/RedBlackBST.h:283-290 | PlaceTo/MoveTo of the neighbour into the target |
| RedBlackBSTs.RedBlackBST.RemoveInner | Red_Black_Tree/RedBlackBST.h:283-303 | net effect of the inner-node branch on the in-order sequence and the payloads |
| RedBlackBSTs.RedBlackBST.Remove | Red_Black_Tree/RedBlackBST.h:291-303 | the neighbour is removed, red-black kept |
| RedBlackBSTs.RedBlackBST.Splice | Red_Black_Tree/RedBlackBST.h:147-160 | a one-child node spliced out |
| RedBlackBSTs.RedBlackBST.BlackenChild | Red_Black_Tree/RedBlackBST.h:297-298 | blackening the red child restores the invariant |
| RedBlackBSTs.RedBlackBST.ReplaceIfNotNull | Red_Black_Tree/RedBlackBST.h:147-160 | the child takes the node's place; the node is cut loose |
| RedBlackBSTs.RedBlackBST.PlaceTo | Red_Black_Tree/RedBlackBST.h:144-146 | as written: only the key moves to the target |
| RedBlackBSTs.RedBlackBST.MoveTo | Red_Black_Tree/RedBlackBST.h:144-146 | corrected: key and data move to the target |
| RedBlackBSTs.Placed | Red_Black_Tree/RedBlackBST.h:144-146 | the entries after a key-only move and removal of the neighbour: one entry fewer |
| RedBlackBSTs.PlacedLoses | Red_Black_Tree/RedBlackBST.h:144-146 | that result equals plain removal of the erased entry exactly when the two payloads are equal |
| RedBlackBSTs.PlaceToExample | Red_Black_Tree/RedBlackBST.h:263-304 | erasing key 1 as written from the hand-built map {1: 'a', 2: 'b'} (the one inserting 1 and then 2 gives) leaves {2: 'a'} |
| RBTrees.RedBlackTree.constructor | Red_Black_Tree/RB_Tree.h:18-20 | a new set is valid and empty |
| RBTrees.RedBlackTree.GrandFather | Red_Black_Tree/RB_Tree.h:129-136 | the node two levels up or NIL |
| RBTrees.RedBlackTree.Uncle | Red_Black_Tree/RB_Tree.h:139-148 | the parent's sibling or NIL |
| RBTrees.RedBlackTree.Brother | Red_Black_Tree/RB_Tree.h:151-161 | the sibling or NIL |
| RBTrees.RedBlackTree.SetColor | Red_Black_Tree/RB_Tree.h:104-105 | repaint one node, nothing else changes |
| RBTrees.RedBlackTree.Relink | Red_Black_Tree/RB_Tree.h:164-187 | pointer updates of a rotation, in the source's order |
| RBTrees.RedBlackTree.RotateLeft | Red_Black_Tree/RB_Tree.h:164-187 | left rotation; in-order sequence unchanged |
| RBTrees.RedBlackTree.RotateRight | Red_Black_Tree/RB_Tree.h:190-213 | right rotation; in-order sequence unchanged |
| RBTrees.RedBlackTree.Insert | Red_Black_Tree/RB_Tree.h:216-221 | stays valid red-black; the key is inserted after all smaller keys and before the others |
| RBTrees.InsertKeys | Red_Black_Tree/RB_Tree.h:285-297 | the keys after hanging a leaf are the old keys with the new one at its sorted position |
| RBTrees.RedBlackTree.InsertNode | Red_Black_Tree/RB_Tree.h:285-297 | the red leaf hangs where the search ends |
| RBTrees.RedBlackTree.Attach | Red_Black_Tree/RB_Tree.h:287-289 | links the new node |
| RBTrees.RedBlackTree.InsertCase1 | Red_Black_Tree/RB_Tree.h:313-320 | insertion fixup ends red-black |
| RBTrees.RedBlackTree.InsertCase2 | Red_Black_Tree/RB_Tree.h:323-328 | black parent: done |
| RBTrees.RedBlackTree.InsertCase3 | Red_Black_Tree/RB_Tree.h:331-346 | red uncle: recolour and recurse |
| RBTrees.RedBlackTree.InsertCase4 | Red_Black_Tree/RB_Tree.h:349-365 | inner grandchild rotated outward |
| RBTrees.RedBlackTree.InsertCase5 | Red_Black_Tree/RB_Tree.h:368-380 | recolour and rotate at the grandparent |
| RBTrees.RedBlackTree.MinNode | Red_Black_Tree/RB_Tree.h:383-392 | first in-order node of the subtree |
| RBTrees.RedBlackTree.MaxNode | Red_Black_Tree/RB_Tree.h:395-404 | last in-order node of the subtree |
| RBTrees.RedBlackTree.Find | Red_Black_Tree/RB_Tree.h:407-418 | NIL exactly when the key is absent from the subtree; otherwise a node holding it |
| RBTrees.RedBlackTree.DeleteCase1 | Red_Black_Tree/RB_Tree.h:421-426 | deletion fixup ends red-black; a node hanging from a given side still hangs there |
| RBTrees.RedBlackTree.DeleteCase2 | Red_Black_Tree/RB_Tree.h:429-444 | red brother rotated up |
| RBTrees.RedBlackTree.TurnRedBrother | Red_Black_Tree/RB_Tree.h:431-442 | after the rotation the node has a black brother |
| RBTrees.RedBlackTree.DeleteCase3 | Red_Black_Tree/RB_Tree.h:447-463 | all black: brother red, recurse |
| RBTrees.RedBlackTree.DeleteCase4 | Red_Black_Tree/RB_Tree.h:466-483 | red parent, black nephews: swap colours |
| RBTrees.RedBlackTree.DeleteCase5 | Red_Black_Tree/RB_Tree.h:486-516 | near red nephew rotated outward (absent nephews read black; see Findings) |
| RBTrees.RedBlackTree.DeleteCase6 | Red_Black_Tree/RB_Tree.h:519-536 | final recolour and rotation |
| RBTrees.HangsLink | Red_Black_Tree/RB_Tree.h:260-273 | a node that hangs on side d is its parent's child link on side d, so the unhook after the fixup cuts the right link |
| RBTrees.RedBlackTree.Erase | Red_Black_Tree/RB_Tree.h:224-282 | stays valid; an absent key changes nothing; otherwise exactly one occurrence of the key is removed |
| RBTrees.RedBlackTree.EraseTargetLeaf | Red_Black_Tree/RB_Tree.h:233-247 | a childless target is removed with fixup: its key goes |
| RBTrees.RedBlackTree.RemoveLeaf | Red_Black_Tree/RB_Tree.h:235-246 | fixup then unlink of the childless target |
| RBTrees.RedBlackTree.RepairAround | Red_Black_Tree/RB_Tree.h:235-237 | fixup on the still-attached target |
| RBTrees.RedBlackTree.Unhook | Red_Black_Tree/RB_Tree.h:238-246 | the target is cut from its parent on the side it hangs |
| RBTrees.RedBlackTree.EraseTargetInner | Red_Black_Tree/RB_Tree.h:249-281 | a target with a child: the neighbour's key moves in and the neighbour goes |
| RBTrees.RedBlackTree.Replacement | Red_Black_Tree/RB_Tree.h:249-253 | the replacement is the in-order neighbour with at most one child |
| RBTrees.RedBlackTree.TakeReplacement | Red_Black_Tree/RB_Tree.h:249-255 | PlaceTo of the neighbour's key into the target |
| RBTrees.KeysPlaced | Red_Black_Tree/RB_Tree.h:249-281 | moving the neighbour's key in and dropping the neighbour removes exactly the target's key, and sortedness is kept |
| RBTrees.KeysRemoved | Red_Black_Tree/RB_Tree.h:233-247 | dropping one element removes exactly its key and keeps sortedness |
| RBTrees.RedBlackTree.RemoveReplacement | Red_Black_Tree/RB_Tree.h:256-281 | ReplaceWith then, for a black node, the complications or toBlack; red-black kept and exactly the neighbour gone |
| RBTrees.RedBlackTree.ChildToBlack | Red_Black_Tree/RB_Tree.h:275-277 | the red child turns black |
| RBTrees.RedBlackTree.Complications | Red_Black_Tree/RB_Tree.h:260-273 | re-hang the childless node, run the fixup, cut it on the same side again: red-black and the node gone |
| RBTrees.RedBlackTree.Rehang | Red_Black_Tree/RB_Tree.h:263-270 | the node is hung back on the side it came from |
| RBTrees.RedBlackTree.UnhookSide | Red_Black_Tree/RB_Tree.h:267-272 | the link on that side is cleared |
| RBTrees.RedBlackTree.EraseLeaf | Red_Black_Tree/RB_Tree.h:300-310 | EraseLeaf (declared, never called by Erase): unlinks a childless node, removing its key, without any fixup |
| RBTrees.RedBlackTree.PlaceTo | Red_Black_Tree/RB_Tree.h:107-110 | the target takes the other node's key; in-order sequence changes only there |
| RBTrees.RedBlackTree.ReplaceWith | Red_Black_Tree/RB_Tree.h:111-121 | corrected: the child takes the node's place with its parent pointer set to the grandparent, so the links realise the spliced tree |
| RBTrees.RedBlackTree.ReplaceWithAsWritten | Red_Black_Tree/RB_Tree.h:111-121 | as written: the grandparent's link is redirected but the child's parent still names the removed node; the links do not realise the spliced tree |
| RBTrees.ReplaceWithExample | Red_Black_Tree/RB_Tree.h:224-282 | in the hand-built tree that inserting 2, 1, 3, 4 gives, erasing 2 leaves node 4 naming the removed node as its parent |
| RedBlack.InsertStart | Red_Black_Tree/RedBlackBST.h:313-328 | hanging a red leaf in a red-black tree gives the insertion invariant |
| RedBlack.InsertCase1Done | Red_Black_Tree/RedBlackBST.h:331-338 | blackening the root ends the repair |
| RedBlack.InsertCase2Done | Red_Black_Tree/RedBlackBST.h:341-346 | under a black parent the tree is red-black |
| RedBlack.InsertGrand | Red_Black_Tree/RedBlackBST.h:349-364 | a red parent is not the root, so the grandparent exists and is black |
| RedBlack.InsertCase3Step | Red_Black_Tree/RedBlackBST.h:349-364 | recolouring parent, uncle and grandparent moves the invariant to the grandparent |
| RedBlack.InsertCase4Step | Red_Black_Tree/RedBlackBST.h:367-383 | the inner rotation gives case 5's precondition |
| RedBlack.InsertCase5Done | Red_Black_Tree/RedBlackBST.h:386-398 | recolour and rotation give a red-black tree |
| RedBlack.RekeyRB | Red_Black_Tree/RedBlackBST.h:144-146 | a key move changes no colour invariant |
| RedBlackDeletion.DeleteStart | Red_Black_Tree/RedBlackBST.h:271-275 | the black childless node, read as absent, leaves one black level missing at it |
| RedBlackDeletion.DeleteStartAtChild | Red_Black_Tree/RedBlackBST.h:293-301 | a black node with a black only child: the fixup starts at the child |
| RedBlackDeletion.DeleteFinish | Red_Black_Tree/RedBlackBST.h:276-280 | cutting the absent-read node after the fixup leaves a red-black tree |
| RedBlackDeletion.DeleteCase1Done | Red_Black_Tree/RedBlackBST.h:439-444 | at the root the missing level is shared by all paths |
| RedBlackDeletion.DeleteCase2Step | Red_Black_Tree/RedBlackBST.h:447-462 | the red-brother rotation keeps the deletion invariant two levels lower |
| RedBlackDeletion.DeleteCase3Step | Red_Black_Tree/RedBlackBST.h:465-481 | reddening the brother moves the deficit to the parent |
| RedBlackDeletion.DeleteCase4Done | Red_Black_Tree/RedBlackBST.h:484-501 | swapping parent and brother colours repairs the tree |
| RedBlackDeletion.DeleteCase5Step | Red_Black_Tree/RedBlackBST.h:504-534 | the near-nephew rotation gives case 6's precondition |
| RedBlackDeletion.DeleteCase6Done | Red_Black_Tree/RedBlackBST.h:537-554 | the final recolour and rotation repair the tree |
| RedBlackDeletion.RedLeafPhantom | Red_Black_Tree/RedBlackBST.h:276-280 | a red leaf can be cut without any fixup |
| RedBlackDeletion.SpliceRB | Red_Black_Tree/RedBlackBST.h:291-299 | splicing a black node with a red child and blackening the child keeps red-black |
| RedBlackDeletion.Case5ReadsNullIff | Order_Statistic_Tree/OrderStatisticBST.h:548-578 | in case 5 the source reads a colour through null exactly when the far nephew is absent |
| RedBlackDeletion.Case5NullExample | Order_Statistic_Tree/OrderStatisticBST.h:548-578 | in the hand-built tree that inserting 2, 1, 4, 3 gives, erasing 1 reaches case 5 with an absent far nephew |
| Persistent.MakeNode | Persistent_Binary_Search_Tree/PersistentBST.h:43-45 | a copy of the node's key and data over new children |
| Persistent.InsertIn | Persistent_Binary_Search_Tree/PersistentBST.h:74-86 | the new version's keys are the old keys plus the key |
| Persistent.InsertOrdered | Persistent_Binary_Search_Tree/PersistentBST.h:74-86 | Insert keeps the search-tree order |
| Persistent.InsertContents | Persistent_Binary_Search_Tree/PersistentBST.h:74-86 | Insert adds key -> data when the key is new and changes nothing otherwise |
| Persistent.InsertPresent | Persistent_Binary_Search_Tree/PersistentBST.h:79-85 | inserting a present key returns the very same subtree |
| Persistent.TakeMin | Persistent_Binary_Search_Tree/PersistentBST.h:108-115 | FindMinNode: the subtree without its leftmost node, plus that node |
| Persistent.TakeMinBST | Persistent_Binary_Search_Tree/PersistentBST.h:108-118 | the node taken is the least key and the rest is a search tree of the others |
| Persistent.EraseIn | Persistent_Binary_Search_Tree/PersistentBST.h:89-120 | the new version has no new keys |
| Persistent.EraseOrdered | Persistent_Binary_Search_Tree/PersistentBST.h:89-120 | Erase keeps the order and removes exactly the key |
| Persistent.EraseContents | Persistent_Binary_Search_Tree/PersistentBST.h:89-120 | Erase removes exactly the key's entry from the map |
| Persistent.EraseAbsent | Persistent_Binary_Search_Tree/PersistentBST.h:89-120 | erasing an absent key rebuilds an equal tree |
| Persistent.FindIn | Persistent_Binary_Search_Tree/PersistentBST.h:123-135 | a found node holds the key |
| Persistent.FindBST | Persistent_Binary_Search_Tree/PersistentBST.h:123-135 | in a search tree, Find succeeds exactly for present keys, with their data |
| Persistent.Insert | Persistent_Binary_Search_Tree/PersistentBST.h:24-26 | the new version maps the key as Insert does; the old version is a value and is untouched |
| Persistent.Erase | Persistent_Binary_Search_Tree/PersistentBST.h:27-29 | the new version is the old map without the key |
| Persistent.Find | Persistent_Binary_Search_Tree/PersistentBST.h:30-32 | a node exactly when the key is present, carrying its data |
| Persistent.Empty | Persistent_Binary_Search_Tree/PersistentBST.h:34-36 | true exactly when the version holds no key |
| SplayBSTs.SplayBST.constructor | Splay_Tree/SplayBST.h:15-16 | an empty map |
| SplayBSTs.SplayBST.Root | Splay_Tree/SplayBST.h:31-32 | the top node, NIL exactly for the empty map |
| SplayBSTs.SplayBST.SetParent | Splay_Tree/SplayBST.h:186-191 | sets the parent of a non-null child |
| SplayBSTs.SplayBST.KeepParent | Splay_Tree/SplayBST.h:194-198 | both children point back to the node |
| SplayBSTs.SplayBST.Rotate | Splay_Tree/SplayBST.h:201-233 | the arena after Rotate(parent, child); the child becomes the root when the parent was |
| SplayBSTs.LinkedRotateStep | Splay_Tree/SplayBST.h:201-233 | in a linked tree Rotate realises the tree rotation and touches only cells of the tree |
| SplayBSTs.SplayBST.Splay | Splay_Tree/SplayBST.h:236-264 | the links realise Splayed(t, p), with the node at the top |
| Splay.SplayedSpec | Splay_Tree/SplayBST.h:236-264 | splaying brings the node to the root and keeps the in-order sequence and the ids |
| Splay.StepSpec | Splay_Tree/SplayBST.h:245-261 | one zig-zig or zig-zag step lifts the node two levels and keeps the in-order sequence |
| SplayBSTs.SplayBST.FindAt | Splay_Tree/SplayBST.h:296-311 | Find(node, key): walk to the key or to the last node on its way and splay it |
| Splay.SearchHit | Splay_Tree/SplayBST.h:296-311 | the walk stops on a node that holds the key exactly when the key is present |
| Splay.SearchBetween | Splay_Tree/SplayBST.h:296-311 | the walk ends between the keys below and the keys from the key on |
| SplayBSTs.SplayBST.Split | Splay_Tree/SplayBST.h:267-293 | corrected: the links realise the two pieces of SplitOf, both parentless |
| Splay.SplitSpec | Splay_Tree/SplayBST.h:267-293 | the pieces hold the keys below and above the key and share no node |
| SplayBSTs.SplayBST.Merge | Splay_Tree/SplayBST.h:46-58 | the links realise Merged(left, right) |
| Splay.MergedSpec | Splay_Tree/SplayBST.h:46-58 | merging two search trees, all keys of the left below those of the right, gives a search tree with both in-order sequences concatenated |
| SplayBSTs.SplayBST.Insert | Splay_Tree/SplayBST.h:314-322 | stays valid; the map becomes old[key := value] |
| Splay.InsertedMap | Splay_Tree/SplayBST.h:314-322 | the new node over Split's pieces stores value under key and keeps every other key |
| SplayBSTs.SplayBST.Erase | Splay_Tree/SplayBST.h:325-340 | throws exactly when the key is absent; the map becomes old - {key} |
| SplayBSTs.SplayBST.RemoveRoot | Splay_Tree/SplayBST.h:331-339 | merging the splayed root's subtrees realises Merged and sets the root |
| Splay.ErasedSpec | Splay_Tree/SplayBST.h:325-340 | the erased tree is a search tree with the map without the key |
| SplayBSTs.SplayBST.Find | Splay_Tree/SplayBST.h:176-183 | the map is unchanged (only the shape is splayed); the result is not NIL exactly when the key is present, and then holds its value |
| Splay.FoundSpec | Splay_Tree/SplayBST.h:176-183 | after the search-and-splay the root holds the key exactly when it is present |
| SplayBSTs.SplayBST.InOrder | Splay_Tree/SplayBST.h:159-167 | visits the in-order sequence |
| SplayBSTs.DetachAsWritten | Splay_Tree/SplayBST.h:273-277 | as written: the left child's parent is cleared twice, the right child's not at all |
| SplayBSTs.DetachAsWrittenStale | Splay_Tree/SplayBST.h:273-277 | after that, the right piece is not a parentless tree: its root still names the old root |
| SplayBSTs.DetachAsWrittenExample | Splay_Tree/SplayBST.h:273-277 | root 5 with right child 7, split at 5: the cell of 7 keeps parent 0 |
| OptimalCosts.OptSpec | Optimal_Binary_Search_Tree/OptimalBST.h:337-356 | the cached cost of an interval is the least candidate cost, first reached at the cached root |
| OptimalCosts.ScanSpec | Optimal_Binary_Search_Tree/OptimalBST.h:342-354 | after trying roots lo..r-1 the cell holds the least cost among them, at the first root reaching it |
| OptimalCosts.OptLeast | Optimal_Binary_Search_Tree/OptimalBST.h:337-356 | no search tree over an interval costs less than the table's value |
| OptimalCosts.GrownSpec | Optimal_Binary_Search_Tree/OptimalBST.h:357-369 | buildTree gives a tree over the interval, with exact cost caches, costing the table's optimum |
| OptimalCosts.GrownOptimal | Optimal_Binary_Search_Tree/OptimalBST.h:301-372 | the tree built has the least weighted path length of all search trees over the keys |
| OptimalCosts.GrownElems | Optimal_Binary_Search_Tree/OptimalBST.h:357-369 | the built tree lists the input pairs in input order |
| OptimalCosts.VisitMass | Optimal_Binary_Search_Tree/OptimalBST.h:128-132 | with exact caches, visitCount is the subtree's frequency sum |
| OptimalCosts.TurnedSpec | Optimal_Binary_Search_Tree/OptimalBST.h:219-234 | the rotation Optimize considers keeps the in-order sequence, and its cost is the altCost formula |
| OptimalCosts.OptimizeAsWrittenStale | Optimal_Binary_Search_Tree/OptimalBST.h:212-265 | as written: in the exactly cached tree that Init on keys 10, 20, 30, 40 with frequencies 0, 0, 0, 100 and finds of 30, 10, 20 leave (40 over 30 over 10, 20 right of 10), a further find of 20 makes the root cache 111 for a tree costing 110 |
| OptimalBSTs.OptimalBST.constructor | Optimal_Binary_Search_Tree/OptimalBST.h:19 | the default-constructed tree is empty |
| OptimalBSTs.OptimalBST.Init | Optimal_Binary_Search_Tree/OptimalBST.h:301-372 | throws exactly on a size mismatch, changing nothing; otherwise the tree holds the pairs in order, caches exact costs and no search tree over them costs less |
| OptimalBSTs.Allocate | Optimal_Binary_Search_Tree/OptimalBST.h:327-334 | fresh nodes and a cache whose diagonal holds the single-key costs |
| OptimalBSTs.Tabulate | Optimal_Binary_Search_Tree/OptimalBST.h:337-356 | the triple loop leaves every interval's cell at its optimum (Solved) |
| OptimalBSTs.TryRoots | Optimal_Binary_Search_Tree/OptimalBST.h:342-354 | the root loop of one interval finishes that interval's cell |
| OptimalBSTs.Build | Optimal_Binary_Search_Tree/OptimalBST.h:357-369 | buildTree links the nodes of an interval into the optimal subtree and touches no other cell |
| OptimalBSTs.OptimalBST.Cost | Optimal_Binary_Search_Tree/OptimalBST.h:385-392 | the cached cost, 0 for null; with exact caches the weighted path length |
| OptimalBSTs.OptimalBST.VisitCount | Optimal_Binary_Search_Tree/OptimalBST.h:128-132 | cost minus the children's costs; with exact caches the subtree's frequency sum |
| OptimalBSTs.OptimalBST.AltCosts | Optimal_Binary_Search_Tree/OptimalBST.h:219-251 | altCost and altParentCost of the rotation Optimize considers |
| OptimalBSTs.OptimalBST.SetParent | Optimal_Binary_Search_Tree/OptimalBST.h:146-151 | sets the parent of a non-null child |
| OptimalBSTs.OptimalBST.Rotate | Optimal_Binary_Search_Tree/OptimalBST.h:162-209 | RotateLeft/RotateRight: the tree rotation, keys and counters unchanged |
| OptimalBSTs.OptimalBST.Step | Optimal_Binary_Search_Tree/OptimalBST.h:214-263 | one level of Optimize: the parent's cost grows, the node rises when cheaper; the weighted path length never grows |
| OptimalBSTs.OptimalBST.Turn | Optimal_Binary_Search_Tree/OptimalBST.h:231-235 | a rotation taken strictly lowers the tree's weighted path length |
| OptimalBSTs.OptimalBST.Optimize | Optimal_Binary_Search_Tree/OptimalBST.h:212-265 | corrected: every cache ends exact, order and frequencies are kept, and the weighted path length does not grow |
| OptimalBSTs.OptimalBST.Hit | Optimal_Binary_Search_Tree/OptimalBST.h:289-294 | the found node counts the visit (only its frequency rises by one); the cost grows by at most its depth plus one |
| OptimalBSTs.OptimalBST.FindFrom | Optimal_Binary_Search_Tree/OptimalBST.h:280-297 | in an ordered tree, a node exactly when the key is present; only that node's frequency changes |
| OptimalBSTs.OptimalBST.Find | Optimal_Binary_Search_Tree/OptimalBST.h:375-382 | Contents unchanged; not NIL exactly when the key is present; the tree stays ordered |
| OptimalBSTs.OptimalBST.InOrder | Optimal_Binary_Search_Tree/OptimalBST.h:269-277 | visits the in-order sequence |
| OptimalTrees.OptimalBSTree.Init | Optimal_Binary_Search_Tree/Optimal_Tree.h:176-229 | corrected: throws exactly on a size mismatch; otherwise the pairs in order in a tree of least weighted path length |
| OptimalTrees.OptimalBSTree.Cost | Optimal_Binary_Search_Tree/Optimal_Tree.h:242-249 | the subtree's weighted path length |
| OptimalTrees.OptimalBSTree.FindFrom | Optimal_Binary_Search_Tree/Optimal_Tree.h:159-173 | in an ordered tree, a node exactly when the key is present |
| OptimalTrees.OptimalBSTree.Find | Optimal_Binary_Search_Tree/Optimal_Tree.h:232-239 | a node holding the key, NIL exactly when absent |
| OptimalTrees.OptimalBSTree.InOrder | Optimal_Binary_Search_Tree/Optimal_Tree.h:148-156 | visits the in-order sequence |
| OptimalTrees.TryAsWritten | Optimal_Binary_Search_Tree/Optimal_Tree.h:211-222 | as written: one root tried, the cost formula read as the conditional expression parses, links set on improvement |
| OptimalTrees.InitAsWritten | Optimal_Binary_Search_Tree/Optimal_Tree.h:176-229 | as written: the whole Init on values |
| OptimalTrees.InitAsWrittenCycle | Optimal_Binary_Search_Tree/Optimal_Tree.h:217-224 | keys 10, 20, 30 with frequencies 1, 1, 1: the links returned form a cycle 1 -> 0 -> 1 |
| OptimalTrees.HeavyTables | Optimal_Binary_Search_Tree/Optimal_Tree.h:211-215 | frequencies 1, 1, 10: the as-parsed rule picks root 1 at cost 13, the intended one root 2 at 15 |
| OptimalTrees.InitAsWrittenUnderestimates | Optimal_Binary_Search_Tree/Optimal_Tree.h:211-215 | that run caches 13 at root 1, although no search tree over those frequencies costs less than 15 |
| BinomialHeaps.TreeAppend | Binomial_Heap/BinomialHeap.h:29-34 | the other root becomes the last child and the order rises by one |
| BinomialHeaps.TreeMerge | Binomial_Heap/BinomialHeap.h:42-60 | throws exactly for different orders; an empty tree gives the other; otherwise the smaller root goes on top |
| BinomialHeaps.TreeMergeValues | Binomial_Heap/BinomialHeap.h:42-60 | linking keeps every value of both trees |
| BinomialHeaps.TreeMergeWellFormed | Binomial_Heap/BinomialHeap.h:42-60 | linking two heap-ordered binomial trees of one order gives one of the next order |
| BinomialHeaps.AddTree | Binomial_Heap/BinomialHeap.h:120-126 | append: the tree goes last, the minimum index moves to it exactly when its root is smaller than First |
| BinomialHeaps.AddOrMerge | Binomial_Heap/BinomialHeap.h:127-139 | appendOrMerge: the last tree's order stays at most the added order plus one |
| BinomialHeaps.AddOrMergeValues | Binomial_Heap/BinomialHeap.h:127-139 | adds exactly the tree's values |
| BinomialHeaps.AddOrMergeEmpty | Binomial_Heap/BinomialHeap.h:129-138 | on an empty list the fall-through after append leaves just the appended tree |
| BinomialHeaps.AddOrMergeValid | Binomial_Heap/BinomialHeap.h:127-139 | keeps the list well formed and ascending; with the minimum fix it keeps the minimum index right |
| BinomialHeaps.LinkMinIndexed | Binomial_Heap/BinomialHeap.h:137 | corrected: linking with the last tree keeps the minimum index right |
| BinomialHeaps.MergeFromValid | Binomial_Heap/BinomialHeap.h:166-205 | the rest of Merge from any reachable state gives a valid heap |
| BinomialHeaps.MergeFromValues | Binomial_Heap/BinomialHeap.h:166-205 | Merge holds every value of both lists |
| BinomialHeaps.MergeHeapsValid | Binomial_Heap/BinomialHeap.h:166-205 | the merge of two valid lists is a valid heap with both multisets of values |
| BinomialHeaps.FirstIsMin | Binomial_Heap/BinomialHeap.h:157-159 | First of a valid heap is its least value |
| BinomialHeaps.Popped | Binomial_Heap/BinomialHeap.h:147-156 | Pop throws exactly when the minimum index is -1, whether the heap is empty or holds trees a FromRoots construction left unindexed |
| BinomialHeaps.PopValid | Binomial_Heap/BinomialHeap.h:147-156 | Pop of a valid non-empty heap removes exactly its least value and leaves a valid heap |
| BinomialHeaps.PushValid | Binomial_Heap/BinomialHeap.h:142-146 | Push adds exactly the value and leaves a valid heap |
| BinomialHeaps.RootTrees | Binomial_Heap/BinomialHeap.h:111-117 | the roots constructor gives root i the order i |
| BinomialHeaps.ChildrenTreesValues | Binomial_Heap/BinomialHeap.h:152-154 | the children's trees hold the node's values except its own |
| BinomialHeaps.BinomialHeap.constructor | Binomial_Heap/BinomialHeap.h:105 | empty list, minimum index -1 |
| BinomialHeaps.BinomialHeap.Single | Binomial_Heap/BinomialHeap.h:106-110 | one tree of order 0, minimum index 0 |
| BinomialHeaps.BinomialHeap.FromRoots | Binomial_Heap/BinomialHeap.h:111-117 | the roots as trees of orders 0, 1, ..., minimum index left at -1 |
| BinomialHeaps.BinomialHeap.First | Binomial_Heap/BinomialHeap.h:157-159 | for a valid heap, a value of the heap no larger than any other |
| BinomialHeaps.BinomialHeap.Append | Binomial_Heap/BinomialHeap.h:120-126 | the state becomes AddTree(old, tree) |
| BinomialHeaps.BinomialHeap.AppendOrMerge | Binomial_Heap/BinomialHeap.h:127-139 | corrected: the state becomes AddOrMerge(old, tree) with the minimum fix |
| BinomialHeaps.BinomialHeap.MergeRound | Binomial_Heap/BinomialHeap.h:173-191 | one round of the first loop is MergeStep |
| BinomialHeaps.BinomialHeap.AppendOrMergeEach | Binomial_Heap/BinomialHeap.h:197-202 | the for_each over the remaining trees |
| BinomialHeaps.BinomialHeap.Merge | Binomial_Heap/BinomialHeap.h:166-205 | a fresh heap whose state is MergeHeaps of the two lists |
| BinomialHeaps.BinomialHeap.Push | Binomial_Heap/BinomialHeap.h:142-146 | the state becomes Pushed(old, value) |
| BinomialHeaps.BinomialHeap.Pop | Binomial_Heap/BinomialHeap.h:147-156 | throws exactly when the minimum index is -1 (also on a heap FromRoots built), changing nothing; otherwise the state becomes Popped(old) |
| BinomialHeaps.MergeStaleMin | Binomial_Heap/BinomialHeap.h:127-139 | as written: merging orders 0, 1, 2 with 1 when the order-2 root is least keeps First at the order-0 root |
| BinomialHeaps.MergeKeepsStaleMin | Binomial_Heap/BinomialHeap.h:127-139 | concrete heaps for that: First reports 1 although 0 is in the heap |

## Left out

- Generic key and data types: keys are `int` everywhere, with `<` as the comparison. Payloads are a type parameter or are dropped where the code never reads them (RB_Tree has none).
- Pointers, ownership and destructors are replaced by cells of an arena (`seq<Slot>`) with `NIL` for null. Deleted nodes simply stay unused in the arena. Aliasing between objects, memory leaks, double frees and the order of destructor calls are not modelled. Only the effects of `~Node` on the remaining tree are kept: the size walk of OrderStatisticBST and the unhook from the parent.
- Exceptions become a `thrown` result, or `Throws` in an `Outcome` datatype, together with a clause saying what state is left. This covers SplayBST::Erase on an absent key, BinomialHeap::Pop on an empty heap, BinomialTree::Merge on unequal orders and the size-mismatch throw of both optimal trees.
- InOrder's callback `func` is not modelled. The methods return the sequence of nodes the callback would be applied to.
- RB_Tree leaves `root` uninitialised in its constructor (RB_Tree.h:15-20). Reading it is undefined behaviour, so the model starts from an empty tree.
- `unsigned int` arithmetic (frequencies, costs, `UINT_MAX` as "not reached yet" and `size - length`) is modelled as unbounded `nat`/`int`. Wrap-around on huge frequency sums is not modelled. `UINT_MAX` itself is kept only in the as-written OptimalBSTree table (`OptimalTrees.Held`).
- BinomialHeaps.BinomialHeap.First: `requires trees != []`, because reading `trees[minTreeIndex]` of an empty heap is undefined behaviour in the source. It also requires the minimum index to be in range.
- BinomialHeap's copy and move semantics (`*this = Merge(*this, heap)` and the moved-from trees) are modelled as value assignment of the new list. The moved-from operands are not modelled.
- Deep copy and assignment are deleted in the source, so they are not modelled.
- OrderStatistic.OrderStatisticBST.DeleteCase5, RedBlackBSTs.RedBlackBST.DeleteCase5, RBTrees.RedBlackTree.DeleteCase5 and the DeleteCase6 methods read an absent nephew as black, where the source dereferences null. See Findings.
- OptimalBSTs.OptimalBST.Optimize, OptimalTrees.OptimalBSTree.Init, BinomialHeaps.BinomialHeap.AppendOrMerge, OrderStatistic.OrderStatisticBST.ReplaceIfNotNull, RBTrees.RedBlackTree.ReplaceWith, SplayBSTs.SplayBST.Split and RedBlackBSTs.RedBlackBST.Erase implement the corrected behaviour. The code as written is modelled beside them; see Findings.
- SplayBSTs.SplayBST.Insert of a present key leaves the old node unreachable in the arena (the source leaks it). The contents are still right.

## Findings

| source | as written | input that shows it | evidently intended | confidence | as-written member | corrected member |
|---|---|---|---|---|---|---|
| Red_Black_Tree/RedBlackBST.h:144-146 | `PlaceTo` copies only the key into the erased node, so the replacement's data is lost and the erased node's data stays under the moved key | map {1: 'a', 2: 'b'} (root 1, red right child 2); erase 1 | the replacement's data moves too (as OrderStatisticBST's MoveTo does) | not executed | RedBlackBSTs.PlaceToExample | RedBlackBSTs.RedBlackBST.Erase |
| Order_Statistic_Tree/OrderStatisticBST.h:180 | `ReplaceIfNotNull` sets the removed node's parent to null, so its destructor (l.104-110) skips the walk that decrements the ancestors' sizes | insert 1, 2, 3, 4; erase 2: the root's size stays 4 with 3 nodes, so FindByRank and Rank are off afterwards | keep the parent link until the destructor has walked the ancestors | not executed | OrderStatistic.OrderStatisticBST.SpliceAsWritten | OrderStatistic.OrderStatisticBST.Splice |
| Order_Statistic_Tree/OrderStatisticBST.h:556-562 (also Red_Black_Tree/RedBlackBST.h:512-518, Red_Black_Tree/RB_Tree.h:494-500) | DeleteCase5 reads `brother->right->isBlack()` (mirrored for the other side) without a null test | insert 2, 1, 4, 3; erase 1: brother 4 has no right child | treat a null nephew as black | not executed | RedBlackDeletion.Case5NullExample | RedBlackBSTs.RedBlackBST.DeleteCase5 |
| Red_Black_Tree/RB_Tree.h:111-121 | `ReplaceWith` redirects the grandparent's link to the child but never sets the child's parent | insert 2, 1, 3, 4; erase 2: node 4 still names the removed node as its parent | `child->parent = parent` | not executed | RBTrees.ReplaceWithExample | RBTrees.RedBlackTree.ReplaceWith |
| Splay_Tree/SplayBST.h:275-276 | when the split key is found, the left piece's parent is cleared twice and the right piece's never; the right piece's parent is only overwritten afterwards by Insert's KeepParent (l.318), so nothing is observable through Insert | root 5 with right child 7, split at 5 | `SetParent(root->right, nullptr)` on the second line | not executed | SplayBSTs.DetachAsWrittenStale | SplayBSTs.SplayBST.Split |
| Optimal_Binary_Search_Tree/OptimalBST.h:256 | after a rotation Optimize passes `costInc` up unchanged, although the subtree's cost grew by `costInc + 1` minus the saving, so the caches above go stale whenever a rotation saves 2 or more | Init on keys 10, 20, 30, 40 with frequencies 0, 0, 0, 100, then finds of 30, 10, 20, 20: the last find rotates 20 above 10 (saving 1) and above 30 (saving 2), and the root caches 111 for a tree costing 110 | pass up what the subtree's cost really grew by | not executed | OptimalCosts.OptimizeAsWrittenStale | OptimalBSTs.OptimalBST.Optimize |
| Binomial_Heap/BinomialHeap.h:137 | appendOrMerge's linking branch never updates `minTreeIndex`, so First can report a value that is not the least | Merge of trees of orders 0, 1, 2 (roots 1, 9, 0) with one of order 1 (root 8): First reports 1 while 0 is in the heap | update the minimum index when the linked tree's root is smaller | not executed | BinomialHeaps.MergeKeepsStaleMin | BinomialHeaps.BinomialHeap.AppendOrMerge |
| Optimal_Binary_Search_Tree/Optimal_Tree.h:213-214 | `(root > i) ? a : 0 + (root < j) ? b : 0` parses as `(root > i) ? a : ((0 + (root < j)) ? b : 0)`, so a root with a left part ignores its right part's cost | keys 10, 20, 30 with frequencies 1, 1, 10: root 1 is chosen at cost 13; the optimum is 15 at root 2 | add both parts' costs (parenthesised as in OptimalBST.h:341-342) | not executed | OptimalTrees.InitAsWrittenUnderestimates | OptimalTrees.OptimalBSTree.Init |
| Optimal_Binary_Search_Tree/Optimal_Tree.h:217-224 | nodes are linked while the table is still being filled, and a node that is tried as the root of several intervals keeps the links of the last improvement | keys 10, 20, 30 with frequencies 1, 1, 1: the links returned form the cycle 1 -> 0 -> 1 | link the nodes once the table is complete (as OptimalBST.h:350-369 does) | not executed | OptimalTrees.InitAsWrittenCycle | OptimalTrees.OptimalBSTree.Init |
