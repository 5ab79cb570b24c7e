/** frontend/src/components/AgentPanel.tsx: a panel that polls the backend's
    `/query` endpoint over and over while it is mounted, shows the answer and
    flips its two animation flags after every answer it gets; the thinking
    dots pick their animation from those flags.

    The HTTP exchange is an input (an outcome per cycle), as is the moment
    the panel is unmounted; the delays are not modelled. */
module AgentPanel {
  import opened Strings

  const NoContent := "No content available"

  /** The animation the dots play. */
  datatype Variant = Thinking | Subtle | Idle

  /** `getVariant`. */
  function GetVariant(isThinking: bool, showThinking: bool): (v: Variant)
    ensures v == Idle <==> !isThinking && !showThinking
    ensures v == Thinking <==> isThinking
  {
    if isThinking then Thinking
    else if showThinking then Subtle
    else Idle
  }

  /** One cycle of the loop: the request fails (a non-ok status, a network
      error or a body that is not JSON — all land in the `catch`), or it
      answers with `data.answer`. */
  datatype Poll = Failed | Answered(answer: Option<string>)

  /** A cycle and whether the panel was unmounted before the next check of `mounted`. */
  datatype Cycle = Cycle(poll: Poll, unmountedAfter: bool)

  /** The panel's state: `isOpen`, `showThinking` and `content`. */
  datatype Panel = Panel(isOpen: bool, showThinking: bool, content: string)

  const Initial := Panel(true, false, "")

  /** A cycle's change: an answer sets the content and flips both flags, a
      failure changes nothing. */
  function Apply(p: Panel, poll: Poll): (r: Panel)
    ensures poll.Failed? ==> r == p
    ensures poll.Answered? ==> r.isOpen != p.isOpen && r.showThinking != p.showThinking && r.content != ""
  {
    match poll
    case Failed => p
    case Answered(answer) => Panel(!p.isOpen, !p.showThinking, OrElse(answer, NoContent))
  }

  /** The state after a run of cycles. */
  function Run(p: Panel, polls: seq<Poll>): (r: Panel)
    ensures (r.isOpen != r.showThinking) == (p.isOpen != p.showThinking)
    decreases |polls|
  {
    if polls == [] then p else Apply(Run(p, polls[..|polls| - 1]), polls[|polls| - 1])
  }

  /** How many of the polls were answered. */
  function Answers(polls: seq<Poll>): nat
    decreases |polls|
  {
    if polls == [] then 0
    else Answers(polls[..|polls| - 1]) + (if polls[|polls| - 1].Answered? then 1 else 0)
  }

  /** Each answer flips both flags, so each flag is its initial value
      flipped once per answer; the content is that of the last answer, and
      without an answer nothing has changed. */
  lemma {:induction false} RunFlips(p: Panel, polls: seq<Poll>)
    ensures Run(p, polls).isOpen == (p.isOpen != (Answers(polls) % 2 == 1))
    ensures Run(p, polls).showThinking == (p.showThinking != (Answers(polls) % 2 == 1))
    ensures Answers(polls) == 0 ==> Run(p, polls) == p
    decreases |polls|
  {
    if polls != [] {
      RunFlips(p, polls[..|polls| - 1]);
    }
  }

  /** The content becomes the last answer (or the fallback when it is empty)
      and stays so through any failures after it. */
  lemma {:induction false} RunShowsLastAnswer(p: Panel, polls: seq<Poll>, k: nat)
    requires k < |polls| && polls[k].Answered?
    requires forall j :: k < j < |polls| ==> polls[j].Failed?
    ensures Run(p, polls).content == OrElse(polls[k].answer, NoContent)
    ensures Run(p, polls).content != ""
    decreases |polls|
  {
    if k < |polls| - 1 {
      RunShowsLastAnswer(p, polls[..|polls| - 1], k);
    }
  }

  /** As the flags start apart they stay apart, so the dots (driven by
      `isThinking = isOpen`) play 'thinking' or 'subtle' but never 'idle'. */
  lemma FlagsStayApart(polls: seq<Poll>)
    ensures Run(Initial, polls).isOpen != Run(Initial, polls).showThinking
    ensures GetVariant(Run(Initial, polls).isOpen, Run(Initial, polls).showThinking) != Idle
  {
    RunFlips(Initial, polls);
  }

  /** The cycles the loop runs: up to the first one after which the panel
      was unmounted, included. */
  function Ran(cycles: seq<Cycle>): (r: seq<Cycle>)
    ensures |r| <= |cycles| && r == cycles[..|r|]
    ensures forall i :: 0 <= i < |r| - 1 ==> !r[i].unmountedAfter
    ensures |r| == |cycles| || (r != [] && r[|r| - 1].unmountedAfter)
  {
    if cycles == [] then []
    else if cycles[0].unmountedAfter then [cycles[0]]
    else [cycles[0]] + Ran(cycles[1..])
  }

  function Polls(cycles: seq<Cycle>): (r: seq<Poll>)
    ensures |r| == |cycles| && forall i :: 0 <= i < |cycles| ==> r[i] == cycles[i].poll
  {
    seq(|cycles|, i requires 0 <= i < |cycles| => cycles[i].poll)
  }

  /** One more cycle applies its poll to the state reached so far. */
  lemma RunStep(p: Panel, cycles: seq<Cycle>, k: nat)
    requires k < |cycles|
    ensures Run(p, Polls(cycles[..k + 1])) == Apply(Run(p, Polls(cycles[..k])), cycles[k].poll)
  {
    var ps := Polls(cycles[..k + 1]);
    assert ps[..|ps| - 1] == Polls(cycles[..k]);
  }

  /** The mounted component. */
  class Component {
    var isOpen: bool
    var showThinking: bool
    var isScrolled: bool
    var content: string
    var mounted: bool

    function State(): Panel
      reads this
    {
      Panel(isOpen, showThinking, content)
    }

    constructor()
      ensures State() == Initial && !isScrolled && mounted
    {
      isOpen, showThinking, isScrolled, content := true, false, false, "";
      mounted := true;
    }

    /** `handleScroll`: the panel shows once the page is scrolled more than 10 pixels. */
    method HandleScroll(scrollY: real)
      modifies this
      ensures isScrolled <==> scrollY > 10.0
      ensures State() == old(State()) && mounted == old(mounted)
    {
      isScrolled := scrollY > 10.0;
    }

    /** The polling loop, over the cycles it gets to run while the panel is
        mounted; the cleanup of the effect clears `mounted` and the loop ends
        at its next check. */
    method Loop(cycles: seq<Cycle>)
      requires mounted
      modifies this
      ensures State() == Run(old(State()), Polls(Ran(cycles)))
      ensures !mounted <==> Ran(cycles) != [] && Ran(cycles)[|Ran(cycles)| - 1].unmountedAfter
      ensures isScrolled == old(isScrolled)
    {
      ghost var ran := Ran(cycles);
      ghost var start := State();
      var k := 0;
      while mounted && k < |cycles|
        invariant 0 <= k <= |ran| && ran[..k] == cycles[..k]
        invariant State() == Run(start, Polls(cycles[..k]))
        invariant !mounted <==> k > 0 && cycles[k - 1].unmountedAfter
        invariant isScrolled == old(isScrolled)
        decreases |cycles| - k
      {
        assert k < |ran|;
        ghost var before := State();
        match cycles[k].poll {
          case Failed =>
          case Answered(answer) =>
            content := OrElse(answer, NoContent);
            isOpen := !isOpen;
            showThinking := !showThinking;
        }
        assert State() == Apply(before, cycles[k].poll);
        RunStep(start, cycles, k);
        if cycles[k].unmountedAfter {
          mounted := false;
        }
        k := k + 1;
      }
      assert k == |ran|;
      assert ran == cycles[..k];
    }
  }
}
