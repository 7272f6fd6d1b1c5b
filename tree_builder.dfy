/** The driver: a stack of groups still to be split, each popped, split by its best question,
    and its impure sides pushed back under freshly numbered pages. Each popped group becomes
    one page of the printed key; the text itself is replaced by a record of the pages. */
module TreeBuilder {
  import opened Records
  import opened Impurity
  import opened Questions
  import opened Generation
  import opened Selection

  /** Where one side of a page leads: nowhere, because the side is pure, or to a later page. */
  datatype Branch = Done | Goto(page: nat)

  /** One page of the key: the group it splits, the question asked, its answer, and where the
      yes side and the no side lead. */
  datatype PageEntry = PageEntry(page: nat, group: seq<Mush>, question: Question, answer: Answer,
                                 yes: Branch, no: Branch)

  /** A run either empties the stack or stops at a group that no question splits. */
  datatype Outcome =
    | Finished(pages: seq<PageEntry>)
    | Panicked(pages: seq<PageEntry>, group: seq<Mush>, page: nat)

  /** The page's question is the first candidate of least impurity for its group, and the
      recorded answer is that question's answer. */
  ghost predicate Chosen(e: PageEntry)
  {
    var cs := AllCandidates(e.group);
    AllSplit(cs, e.group) && |cs| > 0 &&
    e.question == cs[FirstMinIndex(Scores(cs, e.group), |cs|)] &&
    e.answer == Ask(e.question, e.group)
  }

  /** A side is done exactly when its impurity is zero. */
  predicate Leads(n: Node, b: Branch)
  {
    b.Done? <==> n.impurity == 0.0
  }

  /** Both sides of the page lead as the impurity of its answer's nodes says. */
  predicate Follows(e: PageEntry)
  {
    Leads(e.answer.yes, e.yes) && Leads(e.answer.no, e.no)
  }

  /** The sides of the page's answer are non-empty, smaller than its group and together as
      large as it, and each has zero impurity exactly when it is pure. */
  ghost predicate SidesOf(e: PageEntry)
  {
    0 < |e.answer.yes.rows| < |e.group| && 0 < |e.answer.no.rows| < |e.group| &&
    |e.answer.yes.rows| + |e.answer.no.rows| == |e.group| &&
    (e.answer.yes.impurity == 0.0 <==> Pure(e.answer.yes.rows)) &&
    (e.answer.no.impurity == 0.0 <==> Pure(e.answer.no.rows))
  }

  /** The page numbers a branch announces. */
  function BranchPages(b: Branch): (ps: seq<nat>)
  {
    if b.Goto? then [b.page] else []
  }

  /** The page numbers announced by the branches of `pages`, in the order they are announced. */
  function GotoPages(pages: seq<PageEntry>): (ps: seq<nat>)
  {
    if pages == [] then []
    else
      var e := pages[|pages| - 1];
      GotoPages(pages[..|pages| - 1]) + BranchPages(e.yes) + BranchPages(e.no)
  }

  /** The page numbers of the pages written so far. */
  function EntryPages(pages: seq<PageEntry>): (ps: set<nat>)
  {
    set i | 0 <= i < |pages| :: pages[i].page
  }

  /** The page numbers of the groups on the stack. */
  function StackPages(stack: seq<(seq<Mush>, nat)>): (ps: set<nat>)
  {
    set i | 0 <= i < |stack| :: stack[i].1
  }

  /** The group a branch pushes: the side's rows under the announced page, if there is one. */
  function Pushed(n: Node, b: Branch): (pushed: seq<(seq<Mush>, nat)>)
  {
    if b.Goto? then [(n.rows, b.page)] else []
  }

  /** The weight of a group of `n` rows. */
  function GroupWeight(n: nat): (w: nat)
  {
    if n == 0 then 0 else 2 * n - 1
  }

  /** The measure that a split lowers: a group of `n > 0` rows weighs `2n - 1`, so a group
      replaced by at most two non-empty groups whose sizes add up to its own weighs more than
      they do together. */
  function Weight(stack: seq<(seq<Mush>, nat)>): (w: nat)
  {
    if stack == [] then 0
    else Weight(stack[..|stack| - 1]) + GroupWeight(|stack[|stack| - 1].0|)
  }

  /** The numbers 3, 4, ... in order: the `i`-th page announced is page `i + 3`. */
  ghost predicate Consecutive(s: seq<nat>)
  {
    forall i :: 0 <= i < |s| ==> s[i] == i + 3
  }

  /** A group that gets a page of its own after the first is impure and smaller than the
      whole input. */
  ghost predicate Spawned(rows: seq<Mush>, mush: seq<Mush>)
  {
    0 < |rows| < |mush| && !Pure(rows)
  }

  /** Every page of `pages` asks its group's chosen question and leads as its answer's
      impurities say. */
  ghost predicate AllChosen(pages: seq<PageEntry>)
  {
    pages != [] ==>
      AllChosen(pages[..|pages| - 1]) && Chosen(pages[|pages| - 1]) && Follows(pages[|pages| - 1])
  }

  /** Each page of an all-chosen sequence is chosen. */
  lemma {:induction false} AllChosenAt(pages: seq<PageEntry>, i: nat)
    requires AllChosen(pages) && i < |pages|
    ensures Chosen(pages[i]) && Follows(pages[i])
  {
    if i < |pages| - 1 {
      AllChosenAt(pages[..|pages| - 1], i);
      assert pages[..|pages| - 1][i] == pages[i];
    }
  }

  /** The pages written so far are all chosen, the first one splits the whole input, and no
      page number is written twice. */
  ghost predicate Written(pages: seq<PageEntry>, mush: seq<Mush>)
  {
    AllChosen(pages) && Opens(pages, mush) && DistinctPages(pages)
  }

  /** The first page, if any, splits the whole input under page 1. */
  predicate Opens(pages: seq<PageEntry>, mush: seq<Mush>)
  {
    |pages| > 0 ==> pages[0].page == 1 && pages[0].group == mush
  }

  /** No page number is written twice. */
  predicate DistinctPages(pages: seq<PageEntry>)
  {
    forall i, j :: 0 <= i < j < |pages| ==> pages[i].page != pages[j].page
  }

  /** The stack holds page numbers in increasing order, none above `nextPage`, and each of
      its groups is either the whole input under page 1 or a spawned group. */
  ghost predicate Stacked(stack: seq<(seq<Mush>, nat)>, nextPage: nat, mush: seq<Mush>)
  {
    (forall i, j :: 0 <= i < j < |stack| ==> stack[i].1 < stack[j].1) &&
    (forall i :: 0 <= i < |stack| ==> 1 <= stack[i].1 <= nextPage) &&
    (forall i :: 0 <= i < |stack| ==>
      (stack[i].1 == 1 && stack[i].0 == mush) || Spawned(stack[i].0, mush))
  }

  /** Page 1 and the pages announced so far, 3 to `nextPage`, are each either written or still
      on the stack, and not both. */
  ghost predicate Accounted(pages: seq<PageEntry>, stack: seq<(seq<Mush>, nat)>, nextPage: nat)
  {
    |GotoPages(pages)| + 2 == nextPage && Consecutive(GotoPages(pages)) &&
    (forall p :: (p == 1 || 3 <= p <= nextPage) <==> p in EntryPages(pages) || p in StackPages(stack)) &&
    EntryPages(pages) !! StackPages(stack)
  }

  /** A side of page `e` with rows `rows` is announced as a goto to page `p`. */
  predicate SendsTo(e: PageEntry, rows: seq<Mush>, p: nat)
  {
    (e.yes == Goto(p) && e.answer.yes.rows == rows) || (e.no == Goto(p) && e.answer.no.rows == rows)
  }

  /** Some page written so far sends the group `rows` to page `p`. */
  ghost predicate Announced(pages: seq<PageEntry>, rows: seq<Mush>, p: nat)
  {
    exists i :: 0 <= i < |pages| && SendsTo(pages[i], rows, p)
  }

  /** Page `p` has been written, and it splits the group `rows`. */
  ghost predicate PageFor(pages: seq<PageEntry>, rows: seq<Mush>, p: nat)
  {
    exists j :: 0 <= j < |pages| && pages[j].page == p && pages[j].group == rows
  }

  /** Each goto of page `e` names a page that has been written for that side's rows. */
  ghost predicate GotosWritten(pages: seq<PageEntry>, e: PageEntry)
  {
    (e.yes.Goto? ==> PageFor(pages, e.answer.yes.rows, e.yes.page)) &&
    (e.no.Goto? ==> PageFor(pages, e.answer.no.rows, e.no.page))
  }

  /** Each goto of page `e` names a side that is still on the stack under that page, or a page
      that has been written for that side's rows. */
  ghost predicate GotosHandled(pages: seq<PageEntry>, stack: seq<(seq<Mush>, nat)>, e: PageEntry)
  {
    (e.yes.Goto? ==> (e.answer.yes.rows, e.yes.page) in stack || PageFor(pages, e.answer.yes.rows, e.yes.page)) &&
    (e.no.Goto? ==> (e.answer.no.rows, e.no.page) in stack || PageFor(pages, e.answer.no.rows, e.no.page))
  }

  /** Every group on the stack is the whole input under page 1, before any page is written, or
      a side that a written page sends to the group's page. */
  ghost predicate Linked(pages: seq<PageEntry>, stack: seq<(seq<Mush>, nat)>, mush: seq<Mush>)
  {
    forall k :: 0 <= k < |stack| ==>
      (pages == [] && stack[k] == (mush, 1)) || Announced(pages, stack[k].0, stack[k].1)
  }

  /** Every goto written so far is still on the stack or has its page written. */
  ghost predicate Resolved(pages: seq<PageEntry>, stack: seq<(seq<Mush>, nat)>)
  {
    forall i :: 0 <= i < |pages| ==> GotosHandled(pages, stack, pages[i])
  }

  /** Page `e` is written after `prev` in stack order: its group is a side that a page of
      `prev` sent to `e.page`, that page is not yet written, and no page announced but not yet
      written has a higher number. */
  ghost predicate PopOrder(prev: seq<PageEntry>, e: PageEntry)
  {
    Announced(prev, e.group, e.page) && e.page !in EntryPages(prev) &&
    forall p :: p in GotoPages(prev) && p !in EntryPages(prev) ==> p <= e.page
  }

  /** Every page after the first is written in stack order after the pages before it. */
  ghost predicate Ordered(pages: seq<PageEntry>)
  {
    |pages| > 1 ==> Ordered(pages[..|pages| - 1]) && PopOrder(pages[..|pages| - 1], pages[|pages| - 1])
  }

  /** Each page after the first follows the pages before it in stack order. */
  lemma {:induction false} OrderedAt(pages: seq<PageEntry>, i: nat)
    requires Ordered(pages) && 0 < i < |pages|
    ensures PopOrder(pages[..i], pages[i])
  {
    if i < |pages| - 1 {
      var init := pages[..|pages| - 1];
      OrderedAt(init, i);
      assert init[..i] == pages[..i] && init[i] == pages[i];
    }
  }

  /** Every page written after the first follows the earlier ones in stack order. */
  lemma OrderedAll(pages: seq<PageEntry>)
    requires Ordered(pages)
    ensures forall i :: 0 < i < |pages| ==> PopOrder(pages[..i], pages[i])
  {
    forall i | 0 < i < |pages| ensures PopOrder(pages[..i], pages[i]) {
      OrderedAt(pages, i);
    }
  }

  /** The invariant of the main loop, over the pages written, the stack and the last page
      number announced. */
  ghost predicate Building(mush: seq<Mush>, pages: seq<PageEntry>, stack: seq<(seq<Mush>, nat)>,
                           nextPage: nat)
  {
    Written(pages, mush) && Stacked(stack, nextPage, mush) && Accounted(pages, stack, nextPage) &&
    (pages == [] ==> stack == [(mush, 1)]) && Linked(pages, stack, mush) && Resolved(pages, stack) &&
    Ordered(pages)
  }

  /** One side of a chosen answer: a pure side is done, an impure one is pushed under the next
      page number. */
  method Follow(node: Node, nextPage: nat, halfNodes: seq<(seq<Mush>, nat)>)
    returns (branch: Branch, nextPage': nat, halfNodes': seq<(seq<Mush>, nat)>)
    ensures Leads(node, branch)
    ensures branch.Goto? ==> branch.page == nextPage + 1
    ensures nextPage' == nextPage + |BranchPages(branch)|
    ensures halfNodes' == halfNodes + Pushed(node, branch)
  {
    if node.impurity == 0.0 {
      branch, nextPage', halfNodes' := Done, nextPage, halfNodes;
    } else {
      nextPage' := nextPage + 1;
      branch := Goto(nextPage');
      halfNodes' := halfNodes + [(node.rows, nextPage')];
    }
  }

  /** Chooses the question for one popped group and follows both sides of its answer, or
      reports that no question splits the group. The impure sides are pushed onto `rest`
      under the next page numbers, yes side first. */
  method ChoosePage(rows: seq<Mush>, page: nat, nextPage: nat, rest: seq<(seq<Mush>, nat)>)
    returns (entry: Option<PageEntry>, nextPage': nat, stack': seq<(seq<Mush>, nat)>)
    ensures entry.None? <==> AllCandidates(rows) == []
    ensures entry.Some? ==>
      var e := entry.value;
      e.group == rows && e.page == page && Chosen(e) && Follows(e) && SidesOf(e) &&
      (e.yes.Goto? ==> e.yes.page == nextPage + 1) &&
      (e.no.Goto? ==> e.no.page == nextPage + |BranchPages(e.yes)| + 1) &&
      nextPage' == nextPage + |BranchPages(e.yes)| + |BranchPages(e.no)| &&
      stack' == rest + Pushed(e.answer.yes, e.yes) + Pushed(e.answer.no, e.no)
  {
    var best := SelectBest(rows);
    match best {
      case None =>
        entry, nextPage', stack' := None, nextPage, rest;
      case Some((_, question, answer)) =>
        AskSides(question, rows);
        NodeImpurity(answer.yes.rows);
        NodeImpurity(answer.no.rows);
        var yes, no;
        yes, nextPage', stack' := Follow(answer.yes, nextPage, rest);
        no, nextPage', stack' := Follow(answer.no, nextPage', stack');
        entry := Some(PageEntry(page, rows, question, answer, yes, no));
    }
  }

  /** Builds the key for `mush`: page 1 splits the whole input, and pages announced as gotos
      are numbered 3, 4, ... in the order they are announced. */
  method BuildTree(mush: seq<Mush>) returns (outcome: Outcome)
    ensures Written(outcome.pages, mush)
    ensures Consecutive(GotoPages(outcome.pages))
    ensures outcome.Finished? ==>
      forall p :: p in EntryPages(outcome.pages) <==> p == 1 || p in GotoPages(outcome.pages)
    ensures outcome.Panicked? ==>
      AllCandidates(outcome.group) == [] &&
      ((outcome.page == 1 && outcome.group == mush) || Spawned(outcome.group, mush))
    ensures AllCandidates(mush) == [] ==> outcome == Panicked([], mush, 1)
    ensures outcome.Finished? ==>
      forall i :: 0 <= i < |outcome.pages| ==> GotosWritten(outcome.pages, outcome.pages[i])
    ensures outcome.Panicked? ==>
      (outcome.page == 1 && outcome.group == mush && outcome.pages == []) ||
      (Announced(outcome.pages, outcome.group, outcome.page) &&
       outcome.page !in EntryPages(outcome.pages) &&
       forall p :: p in GotoPages(outcome.pages) && p !in EntryPages(outcome.pages) ==> p <= outcome.page)
    ensures forall i :: 0 < i < |outcome.pages| ==> PopOrder(outcome.pages[..i], outcome.pages[i])
  {
    var halfNodes: seq<(seq<Mush>, nat)> := [(mush, 1)];
    var nextPage: nat := 2;
    var pages: seq<PageEntry> := [];
    BuildingInit(mush);
    while halfNodes != []
      invariant Building(mush, pages, halfNodes, nextPage)
      decreases Weight(halfNodes)
    {
      var (rows, page) := halfNodes[|halfNodes| - 1];
      var entry, nextPage', halfNodes' := ChoosePage(rows, page, nextPage, halfNodes[..|halfNodes| - 1]);
      match entry {
        case None =>
          if pages != [] {
            OpenedByChoice(pages, mush);
          }
          PoppedGroup(mush, pages, halfNodes, nextPage, rows, page);
          OrderedAll(pages);
          return Panicked(pages, rows, page);
        case Some(e) =>
          WriteStep(mush, pages, halfNodes, nextPage, e, halfNodes', nextPage');
          pages, nextPage, halfNodes := pages + [e], nextPage', halfNodes';
      }
    }
    BuildingDone(pages, nextPage);
    ResolvedDone(pages);
    OrderedAll(pages);
    OpenedByChoice(pages, mush);
    return Finished(pages);
  }

  /** Once a page is written, some question splits the whole input. */
  lemma OpenedByChoice(pages: seq<PageEntry>, mush: seq<Mush>)
    requires Written(pages, mush) && pages != []
    ensures AllCandidates(mush) != []
  {
    AllChosenAt(pages, 0);
  }

  /** A side of a chosen page is done exactly when its rows are pure, and otherwise gets a
      page of its own. */
  lemma PagePurity(e: PageEntry)
    requires Chosen(e) && Follows(e)
    ensures e.yes.Done? <==> Pure(e.answer.yes.rows)
    ensures e.no.Done? <==> Pure(e.answer.no.rows)
  {
    var cs := AllCandidates(e.group);
    var k := FirstMinIndex(Scores(cs, e.group), |cs|);
    assert SplitsNontrivially(cs[k], e.group);
    AskSides(e.question, e.group);
    NodeImpurity(e.answer.yes.rows);
    NodeImpurity(e.answer.no.rows);
  }

  /** On every page written, exactly the impure sides lead to further pages. */
  lemma WrittenPurity(pages: seq<PageEntry>, mush: seq<Mush>, i: nat)
    requires Written(pages, mush) && i < |pages|
    ensures pages[i].yes.Done? <==> Pure(pages[i].answer.yes.rows)
    ensures pages[i].no.Done? <==> Pure(pages[i].answer.no.rows)
  {
    AllChosenAt(pages, i);
    PagePurity(pages[i]);
  }

  /** The loop starts with the whole input on the stack under page 1. */
  lemma BuildingInit(mush: seq<Mush>)
    ensures Building(mush, [], [(mush, 1)], 2)
  {
    assert StackPages([(mush, 1)]) == {1} by {
      assert [(mush, 1)][0].1 == 1;
    }
  }

  /** With the stack empty, the pages written are page 1 and every page announced. */
  lemma BuildingDone(pages: seq<PageEntry>, nextPage: nat)
    requires Accounted(pages, [], nextPage)
    ensures Consecutive(GotoPages(pages))
    ensures forall p :: p in EntryPages(pages) <==> p == 1 || p in GotoPages(pages)
  {
    assert StackPages([]) == {};
    ConsecutiveMembers(GotoPages(pages), nextPage);
  }

  /** The set of page numbers of a concatenation of stacks. */
  lemma StackPagesAppend(s: seq<(seq<Mush>, nat)>, t: seq<(seq<Mush>, nat)>)
    ensures StackPages(s + t) == StackPages(s) + StackPages(t)
  {
    forall p | p in StackPages(s + t) ensures p in StackPages(s) + StackPages(t) {
      var i :| 0 <= i < |s + t| && (s + t)[i].1 == p;
      if i < |s| {
        assert s[i].1 == p;
      } else {
        assert t[i - |s|].1 == p;
      }
    }
    forall p | p in StackPages(s) + StackPages(t) ensures p in StackPages(s + t) {
      if p in StackPages(s) {
        var i :| 0 <= i < |s| && s[i].1 == p;
        assert (s + t)[i].1 == p;
      } else {
        var i :| 0 <= i < |t| && t[i].1 == p;
        assert (s + t)[|s| + i].1 == p;
      }
    }
  }

  /** The weight of a concatenation of stacks. */
  lemma {:induction false} WeightAppend(s: seq<(seq<Mush>, nat)>, t: seq<(seq<Mush>, nat)>)
    ensures Weight(s + t) == Weight(s) + Weight(t)
  {
    if t == [] {
      assert s + t == s;
    } else {
      var init := t[..|t| - 1];
      WeightAppend(s, init);
      assert (s + t)[..|s + t| - 1] == s + init;
      assert (s + t)[|s + t| - 1] == t[|t| - 1];
    }
  }

  /** The pages announced before a step, then those the step announces. */
  lemma GotoPagesAppend(pages: seq<PageEntry>, e: PageEntry)
    ensures GotoPages(pages + [e]) == GotoPages(pages) + BranchPages(e.yes) + BranchPages(e.no)
  {
    assert (pages + [e])[..|pages|] == pages;
  }

  /** A consecutive run of `n - 2` page numbers from 3 holds exactly the numbers 3 to `n`. */
  lemma ConsecutiveMembers(s: seq<nat>, n: nat)
    requires Consecutive(s) && |s| + 2 == n
    ensures forall p :: p in s <==> 3 <= p <= n
  {
    forall p | 3 <= p <= n ensures p in s {
      assert s[p - 3] == p;
    }
  }

  /** Appending a chosen page keeps every page chosen. */
  lemma AllChosenAppend(pages: seq<PageEntry>, e: PageEntry)
    requires AllChosen(pages) && Chosen(e) && Follows(e)
    ensures AllChosen(pages + [e])
  {
    assert (pages + [e])[..|pages|] == pages;
  }

  /** Writing the page for the group on top of the stack keeps the pages written correct. */
  lemma WrittenStep(mush: seq<Mush>, pages: seq<PageEntry>, stack: seq<(seq<Mush>, nat)>,
                    nextPage: nat, e: PageEntry)
    requires stack != [] && stack[|stack| - 1] == (e.group, e.page)
    requires Written(pages, mush) && EntryPages(pages) !! StackPages(stack)
    requires pages == [] ==> stack == [(mush, 1)]
    requires Chosen(e) && Follows(e)
    ensures Written(pages + [e], mush)
  {
    AllChosenAppend(pages, e);
    OpensAppend(pages, mush, e);
    assert e.page in StackPages(stack);
    DistinctAppend(pages, e);
  }

  /** Appending keeps the first page. */
  lemma OpensAppend(pages: seq<PageEntry>, mush: seq<Mush>, e: PageEntry)
    requires Opens(pages, mush)
    requires pages == [] ==> e.page == 1 && e.group == mush
    ensures Opens(pages + [e], mush)
  {
    assert (pages + [e])[0] == if pages == [] then e else pages[0];
  }

  /** Appending a page whose number has not been written keeps the numbers distinct. */
  lemma DistinctAppend(pages: seq<PageEntry>, e: PageEntry)
    requires DistinctPages(pages) && e.page !in EntryPages(pages)
    ensures DistinctPages(pages + [e])
  {
    forall i | 0 <= i < |pages| ensures pages[i].page != e.page {
      assert pages[i].page in EntryPages(pages);
    }
    forall i, j | 0 <= i < j < |pages| + 1 ensures (pages + [e])[i].page != (pages + [e])[j].page {
      assert (pages + [e])[i] == pages[i];
    }
  }

  /** The groups a chosen page pushes are spawned groups under fresh, increasing numbers. */
  lemma StackedStep(mush: seq<Mush>, stack: seq<(seq<Mush>, nat)>, nextPage: nat, e: PageEntry)
    requires stack != [] && stack[|stack| - 1] == (e.group, e.page)
    requires Stacked(stack, nextPage, mush)
    requires SidesOf(e) && Follows(e)
    requires e.yes.Goto? ==> e.yes.page == nextPage + 1
    requires e.no.Goto? ==> e.no.page == nextPage + |BranchPages(e.yes)| + 1
    ensures Stacked(stack[..|stack| - 1] + Pushed(e.answer.yes, e.yes) + Pushed(e.answer.no, e.no),
                    nextPage + |BranchPages(e.yes)| + |BranchPages(e.no)|, mush)
  {
    assert |e.group| <= |mush| by {
      assert (stack[|stack| - 1].1 == 1 && stack[|stack| - 1].0 == mush) ||
             Spawned(stack[|stack| - 1].0, mush);
    }
  }

  /** The pages a step announces continue the consecutive numbering. */
  lemma NumberedStep(pages: seq<PageEntry>, nextPage: nat, e: PageEntry)
    requires |GotoPages(pages)| + 2 == nextPage && Consecutive(GotoPages(pages))
    requires e.yes.Goto? ==> e.yes.page == nextPage + 1
    requires e.no.Goto? ==> e.no.page == nextPage + |BranchPages(e.yes)| + 1
    ensures |GotoPages(pages + [e])| + 2 == nextPage + |BranchPages(e.yes)| + |BranchPages(e.no)|
    ensures Consecutive(GotoPages(pages + [e]))
  {
    GotoPagesAppend(pages, e);
    ConsecutiveExtend(GotoPages(pages), BranchPages(e.yes), BranchPages(e.no), nextPage);
  }

  /** A consecutive run ending at `last` stays consecutive when extended by at most two numbers
      that follow it in order. */
  lemma ConsecutiveExtend(s: seq<nat>, a: seq<nat>, b: seq<nat>, last: nat)
    requires Consecutive(s) && |s| + 2 == last && |a| <= 1 && |b| <= 1
    requires a != [] ==> a[0] == last + 1
    requires b != [] ==> b[0] == last + |a| + 1
    ensures Consecutive(s + a + b)
  {
    forall i | 0 <= i < |s + a + b| ensures (s + a + b)[i] == i + 3 {
      if i < |s| {
        assert (s + a + b)[i] == s[i];
      } else if i < |s| + |a| {
        assert (s + a + b)[i] == a[0];
      } else {
        assert (s + a + b)[i] == b[0];
      }
    }
  }

  /** The page numbers of the pages written so far and one more. */
  lemma EntryPagesAppend(pages: seq<PageEntry>, e: PageEntry)
    ensures EntryPages(pages + [e]) == EntryPages(pages) + {e.page}
  {
    var entries' := EntryPages(pages + [e]);
    forall p | p in entries' ensures p in EntryPages(pages) + {e.page} {
      var i :| 0 <= i < |pages| + 1 && (pages + [e])[i].page == p;
      if i < |pages| { assert pages[i].page == p; }
    }
    forall p | p in EntryPages(pages) ensures p in entries' {
      var i :| 0 <= i < |pages| && pages[i].page == p;
      assert (pages + [e])[i].page == p;
    }
    assert (pages + [e])[|pages|].page == e.page;
  }

  /** Popping a stack whose page numbers increase removes its top number and no other. */
  lemma StackPagesPop(stack: seq<(seq<Mush>, nat)>)
    requires stack != []
    requires forall i, j :: 0 <= i < j < |stack| ==> stack[i].1 < stack[j].1
    ensures StackPages(stack) == StackPages(stack[..|stack| - 1]) + {stack[|stack| - 1].1}
    ensures stack[|stack| - 1].1 !in StackPages(stack[..|stack| - 1])
  {
    var rest := stack[..|stack| - 1];
    StackPagesAppend(rest, [stack[|stack| - 1]]);
    assert rest + [stack[|stack| - 1]] == stack;
    forall i | 0 <= i < |rest| ensures rest[i].1 != stack[|stack| - 1].1 {
      assert rest[i] == stack[i];
    }
  }

  /** The numbers a step pushes are those it announces. */
  lemma PushedPages(e: PageEntry, nextPage: nat)
    requires e.yes.Goto? ==> e.yes.page == nextPage + 1
    requires e.no.Goto? ==> e.no.page == nextPage + |BranchPages(e.yes)| + 1
    ensures forall p :: p in StackPages(Pushed(e.answer.yes, e.yes)) + StackPages(Pushed(e.answer.no, e.no)) <==>
      nextPage < p <= nextPage + |BranchPages(e.yes)| + |BranchPages(e.no)|
  {
    var py, pn := Pushed(e.answer.yes, e.yes), Pushed(e.answer.no, e.no);
    if e.yes.Goto? { assert py[0].1 == e.yes.page; }
    if e.no.Goto? { assert pn[0].1 == e.no.page; }
  }

  /** Writing a page moves its number from the stack to the pages, and the numbers it
      announces onto the stack. */
  lemma AccountedStep(pages: seq<PageEntry>, stack: seq<(seq<Mush>, nat)>, nextPage: nat,
                      e: PageEntry)
    requires stack != [] && stack[|stack| - 1].1 == e.page
    requires (forall i, j :: 0 <= i < j < |stack| ==> stack[i].1 < stack[j].1)
    requires Accounted(pages, stack, nextPage)
    requires e.yes.Goto? ==> e.yes.page == nextPage + 1
    requires e.no.Goto? ==> e.no.page == nextPage + |BranchPages(e.yes)| + 1
    ensures Accounted(pages + [e],
                      stack[..|stack| - 1] + Pushed(e.answer.yes, e.yes) + Pushed(e.answer.no, e.no),
                      nextPage + |BranchPages(e.yes)| + |BranchPages(e.no)|)
  {
    NumberedStep(pages, nextPage, e);
    var rest := stack[..|stack| - 1];
    var py, pn := Pushed(e.answer.yes, e.yes), Pushed(e.answer.no, e.no);
    StackPagesPop(stack);
    StackPagesAppend(rest + py, pn);
    StackPagesAppend(rest, py);
    PushedPages(e, nextPage);
    EntryPagesAppend(pages, e);
    var added := StackPages(py) + StackPages(pn);
    assert StackPages(rest + py + pn) == StackPages(rest) + added;
    PagesMove(EntryPages(pages), StackPages(stack), StackPages(rest), e.page, added, nextPage,
              nextPage + |BranchPages(e.yes)| + |BranchPages(e.no)|);
  }

  /** Moving the top number from the stack to the pages, and pushing the numbers just
      announced, keeps every announced number in exactly one of the two. */
  lemma PagesMove(entries: set<nat>, stacked: set<nat>, rest: set<nat>, top: nat, added: set<nat>,
                  last: nat, last': nat)
    requires forall p :: (p == 1 || 3 <= p <= last) <==> p in entries || p in stacked
    requires entries !! stacked && stacked == rest + {top} && top !in rest
    requires forall p :: p in added <==> last < p <= last'
    requires 2 <= last <= last'
    ensures forall p :: (p == 1 || 3 <= p <= last') <==> p in entries + {top} || p in rest + added
    ensures entries + {top} !! rest + added
  {
    assert top in stacked;
  }

  /** A page replaces its group by at most two non-empty groups whose sizes add up to it. */
  lemma WeightStep(stack: seq<(seq<Mush>, nat)>, e: PageEntry)
    requires stack != [] && stack[|stack| - 1].0 == e.group
    requires SidesOf(e)
    ensures Weight(stack[..|stack| - 1] + Pushed(e.answer.yes, e.yes) + Pushed(e.answer.no, e.no))
          < Weight(stack)
  {
    var rest := stack[..|stack| - 1];
    var py, pn := Pushed(e.answer.yes, e.yes), Pushed(e.answer.no, e.no);
    WeightAppend(rest + py, pn);
    WeightAppend(rest, py);
    assert Weight(py) <= GroupWeight(|e.answer.yes.rows|) by {
      if e.yes.Goto? { assert py[..0] == []; }
    }
    assert Weight(pn) <= GroupWeight(|e.answer.no.rows|) by {
      if e.no.Goto? { assert pn[..0] == []; }
    }
  }

  /** One iteration of the main loop keeps its invariant and lowers its measure. */
  lemma WriteStep(mush: seq<Mush>, pages: seq<PageEntry>, stack: seq<(seq<Mush>, nat)>,
                  nextPage: nat, e: PageEntry, stack': seq<(seq<Mush>, nat)>, nextPage': nat)
    requires Building(mush, pages, stack, nextPage)
    requires stack != [] && stack[|stack| - 1] == (e.group, e.page)
    requires Chosen(e) && Follows(e) && SidesOf(e)
    requires e.yes.Goto? ==> e.yes.page == nextPage + 1
    requires e.no.Goto? ==> e.no.page == nextPage + |BranchPages(e.yes)| + 1
    requires stack' == stack[..|stack| - 1] + Pushed(e.answer.yes, e.yes) + Pushed(e.answer.no, e.no)
    requires nextPage' == nextPage + |BranchPages(e.yes)| + |BranchPages(e.no)|
    ensures Building(mush, pages + [e], stack', nextPage') && Weight(stack') < Weight(stack)
  {
    WrittenStep(mush, pages, stack, nextPage, e);
    StackedStep(mush, stack, nextPage, e);
    AccountedStep(pages, stack, nextPage, e);
    LinkedStep(mush, pages, stack, e, stack');
    ResolvedStep(pages, stack, e, stack');
    PoppedGroup(mush, pages, stack, nextPage, e.group, e.page);
    OrderedStep(pages, e);
    WeightStep(stack, e);
  }

  /** A page written first, or in stack order after the pages before it, keeps the order. */
  lemma OrderedStep(pages: seq<PageEntry>, e: PageEntry)
    requires Ordered(pages) && (pages == [] || PopOrder(pages, e))
    ensures Ordered(pages + [e])
  {
    assert (pages + [e])[..|pages|] == pages;
  }

  /** The groups left on the stack stay linked to the pages that announced them, and the
      groups a page pushes are linked to that page. */
  lemma LinkedStep(mush: seq<Mush>, pages: seq<PageEntry>, stack: seq<(seq<Mush>, nat)>,
                   e: PageEntry, stack': seq<(seq<Mush>, nat)>)
    requires Linked(pages, stack, mush) && (pages == [] ==> stack == [(mush, 1)]) && stack != []
    requires stack' == stack[..|stack| - 1] + Pushed(e.answer.yes, e.yes) + Pushed(e.answer.no, e.no)
    ensures Linked(pages + [e], stack', mush)
  {
    var rest := stack[..|stack| - 1];
    var py, pn := Pushed(e.answer.yes, e.yes), Pushed(e.answer.no, e.no);
    forall k | 0 <= k < |stack'| ensures Announced(pages + [e], stack'[k].0, stack'[k].1) {
      if k < |rest| {
        assert rest[k] == stack[k];
        var i :| 0 <= i < |pages| && SendsTo(pages[i], stack[k].0, stack[k].1);
        assert (pages + [e])[i] == pages[i];
      } else {
        assert SendsTo(e, stack'[k].0, stack'[k].1) by {
          if k < |rest| + |py| {
            assert stack'[k] == py[0];
          } else {
            assert stack'[k] == pn[0];
          }
        }
        assert (pages + [e])[|pages|] == e;
      }
    }
  }

  /** A page written before the new one is still written. */
  lemma PageForAppend(pages: seq<PageEntry>, e: PageEntry, rows: seq<Mush>, p: nat)
    requires PageFor(pages, rows, p) || (e.group == rows && e.page == p)
    ensures PageFor(pages + [e], rows, p)
  {
    if PageFor(pages, rows, p) {
      var j :| 0 <= j < |pages| && pages[j].page == p && pages[j].group == rows;
      assert (pages + [e])[j] == pages[j];
    } else {
      assert (pages + [e])[|pages|] == e;
    }
  }

  /** A group on the stack is the popped one or stays on the stack. */
  lemma PoppedOrKept(stack: seq<(seq<Mush>, nat)>, stack': seq<(seq<Mush>, nat)>,
                     pushed: seq<(seq<Mush>, nat)>, s: (seq<Mush>, nat))
    requires s in stack && stack' == stack[..|stack| - 1] + pushed
    ensures s == stack[|stack| - 1] || s in stack'
  {
    var k :| 0 <= k < |stack| && stack[k] == s;
    if k < |stack| - 1 {
      assert stack'[k] == stack[k];
    }
  }

  /** Writing the popped group's page resolves the gotos that named it, and the page's own
      gotos are pushed. */
  lemma ResolvedStep(pages: seq<PageEntry>, stack: seq<(seq<Mush>, nat)>, e: PageEntry,
                     stack': seq<(seq<Mush>, nat)>)
    requires Resolved(pages, stack) && stack != [] && stack[|stack| - 1] == (e.group, e.page)
    requires stack' == stack[..|stack| - 1] + Pushed(e.answer.yes, e.yes) + Pushed(e.answer.no, e.no)
    ensures Resolved(pages + [e], stack')
  {
    var pushed := Pushed(e.answer.yes, e.yes) + Pushed(e.answer.no, e.no);
    assert stack' == stack[..|stack| - 1] + pushed;
    forall i | 0 <= i < |pages| + 1 ensures GotosHandled(pages + [e], stack', (pages + [e])[i]) {
      if i < |pages| {
        var d := pages[i];
        assert (pages + [e])[i] == d;
        if d.yes.Goto? {
          var s := (d.answer.yes.rows, d.yes.page);
          if s in stack { PoppedOrKept(stack, stack', pushed, s); }
          if s !in stack' { PageForAppend(pages, e, s.0, s.1); }
        }
        if d.no.Goto? {
          var s := (d.answer.no.rows, d.no.page);
          if s in stack { PoppedOrKept(stack, stack', pushed, s); }
          if s !in stack' { PageForAppend(pages, e, s.0, s.1); }
        }
      } else {
        assert (pages + [e])[i] == e;
        if e.yes.Goto? { assert stack'[|stack| - 1] == (e.answer.yes.rows, e.yes.page); }
        if e.no.Goto? { assert stack'[|stack'| - 1] == (e.answer.no.rows, e.no.page); }
      }
    }
  }

  /** The group on top of the stack is the whole input under page 1 with nothing written, or a
      side announced by a written page under a page not yet written, and its page is the last
      one announced and not yet written. */
  lemma PoppedGroup(mush: seq<Mush>, pages: seq<PageEntry>, stack: seq<(seq<Mush>, nat)>,
                    nextPage: nat, rows: seq<Mush>, page: nat)
    requires Building(mush, pages, stack, nextPage)
    requires stack != [] && stack[|stack| - 1] == (rows, page)
    ensures (page == 1 && rows == mush && pages == []) ||
            (Announced(pages, rows, page) && page !in EntryPages(pages) &&
             forall p :: p in GotoPages(pages) && p !in EntryPages(pages) ==> p <= page)
  {
    assert page in StackPages(stack) by {
      assert stack[|stack| - 1].1 == page;
    }
    ConsecutiveMembers(GotoPages(pages), nextPage);
    forall p | p in GotoPages(pages) && p !in EntryPages(pages) ensures p <= page {
      assert p in StackPages(stack);
      var k :| 0 <= k < |stack| && stack[k].1 == p;
      assert k == |stack| - 1 || stack[k].1 < stack[|stack| - 1].1;
    }
  }

  /** With the stack empty, every goto names a page written for that side's rows. */
  lemma ResolvedDone(pages: seq<PageEntry>)
    requires Resolved(pages, [])
    ensures forall i :: 0 <= i < |pages| ==> GotosWritten(pages, pages[i])
  {
    forall i | 0 <= i < |pages| ensures GotosWritten(pages, pages[i]) {
      assert GotosHandled(pages, [], pages[i]);
    }
  }
}
