# Advisor-vote Monopoly agent: decision logic in Dafny

The repository is a proof-of-concept in which an LLM agent plays Monopoly as
Player 1. The script first advances the game a bounded number of rounds, then
asks the agent for a proposal, asks a panel of three advisors (Aggressive,
Conservative, Opportunistic) to vote on it, and accepts the proposal when a
strict majority approves. This project models the deterministic part of that
pipeline and proves its properties:

- `advisors.dfy`, module `Advisors` (advisors.py): the `Advisor` record (a
  name and a strategy, nothing else), the structured `Response` (reasoning and
  decision), lower-casing, Python's substring test, and
  `parse_advisor_response`, the keyword classifier that approves when the
  lower-cased decision contains "approve", "accept" or "yes".
- `monopoly.dfy`, module `Monopoly` (monopoly.py): `get_current_state` as an
  order-preserving map over the players; the round-bounded turn loop as the
  methods `TurnLoop` and `PlayOneRound`; the vote loop as `CollectVotes`; and
  the strict-majority verdict `Accepted` with `DecideProposal` around it.

The game engine is abstract. The world is a value of a type parameter `G` and
the players are values of a type parameter `P`. `Player.play()` is a
transition `play: (G, P) -> G`, `has_lost()` is a test `lost: (G, P) -> bool`,
and `get_state()` is a reader `getState: (G, P) -> S`. The decision maker's
answers are inputs: `CollectVotes` and `DecideProposal` take the advisors
paired with the response each one got.

The script is simpler than a full arbitration protocol:

- The code has no abstentions, timeouts, retries or concurrent fan-out. Votes
  are collected one advisor at a time, and a failed call is not caught. An
  "all advisors abstained" outcome does not exist; with no votes the verdict
  is a plain rejection (`MajorityLaw`).
- The turn loop has no terminal "game over" state. When a player has lost,
  the loop just stops early, and the script goes on to the proposal and the
  vote anyway. `TurnLoop` returns the round count and leaves that decision to
  its caller.
- The loop condition names `player1` and `player2`, and the list of players
  is `[player1, player2]`. The model tests every player in the list
  (`AnyLost`), which is the same thing for that list.

Functions are deterministic, so recomputing the verdict on the same votes
gives the same result by construction.

## Model

| member | source | states |
|---|---|---|
| `Advisors.ParseAdvisorResponse` | advisors.py:58-63 | the vote is approve iff the lower-cased decision has "approve", "accept" or "yes" as a substring at some position; otherwise, the empty decision included, it is reject |
| `Advisors.ContainsIffHasSubstring` | advisors.py:60 | the left-to-right scan used by the classifier finds a token exactly when the token occurs at some position of the text (Python's `in` on strings), in both directions |
| `Advisors.CaseInsensitive` | advisors.py:59 | two responses whose decisions differ only in letter case get the same vote, whatever their reasoning |
| `Advisors.LowerCasedDecision` | advisors.py:59 | lower-casing a decision before classifying it does not change the vote |
| `Advisors.ApproveIsMonotone` | advisors.py:60 | a decision that approves still approves with any text added before or after it, and with any reasoning |
| `Advisors.TokenApproves` | advisors.py:60-61 | each of the three tokens on its own is an approving decision |
| `Advisors.AffirmativeExample` | advisors.py:58-61 | "Yes, I approve this trade" approves |
| `Advisors.NegativeExample` | advisors.py:58-63 | "No, this is too risky" rejects, because none of the tokens occurs in it |
| `Advisors.HedgeExample` | advisors.py:62-63 | the hedge "Not sure, maybe" has no token and falls to the reject default |
| `Advisors.EmptyDecisionRejects` | advisors.py:62-63 | the empty decision rejects |
| `Advisors.SubstringMatchQuirk` | advisors.py:60 | matching is by substring, not by word: "Disapprove", "unacceptable" and "I do not accept" all approve |
| `Monopoly.GetCurrentState` | monopoly.py:64-80 | the snapshot has exactly one entry per player, in list order, and entry i holds player i's state in the current world |
| `Monopoly.GetCurrentStateAppend` | monopoly.py:77-79 | the snapshot of a concatenated player list is the concatenation of the two snapshots |
| `Monopoly.AnyLostIff` | monopoly.py:192 | the loop's loss test is true iff some listed player has lost |
| `Monopoly.PlayOneRound` | monopoly.py:193-194 | one round plays every player once in list order, and the world becomes the in-order composition of their moves; losses are not checked mid-round |
| `Monopoly.TurnLoop` | monopoly.py:189-195 | the round count never exceeds the bound; no player had lost at the start of any played round; on exit the bound was reached or a player had lost; the world is the world after that many full rounds; the turns played are the player list repeated once per round |
| `Monopoly.LoopExitUnique` | monopoly.py:191-195 | the exit condition determines the round count: two counts that both satisfy it are equal |
| `Monopoly.NoLossPlaysAllRounds` | monopoly.py:191-195 | when nobody has lost at the start of any round before the bound, the loop plays exactly the bound |
| `Monopoly.LostAtStartPlaysNothing` | monopoly.py:192 | a player who has lost before the first round makes the loop play no round |
| `Monopoly.RepeatLength` | monopoly.py:192-195 | k rounds play `len(list_players) * k` turns |
| `Monopoly.RepeatAt` | monopoly.py:193-194 | turn j of round r is played by the j-th player of the list |
| `Monopoly.ScriptRoundsWithoutLoss` | monopoly.py:185-195 | with the script's two players and `stop_at_round = 5`, and no loss, the loop plays 5 rounds and 10 turns |
| `Monopoly.CountPartition` | monopoly.py:262 | every vote is an approval or a rejection: the two counts add up to the number of votes |
| `Monopoly.CountIsMultiplicity` | monopoly.py:262 | `votes.count(v)` is the multiplicity of v in the multiset of votes |
| `Monopoly.MajorityLaw` | monopoly.py:262-265 | accepted iff more than half of the votes approve, iff fewer than half reject; no votes means rejection |
| `Monopoly.TieRejects` | monopoly.py:262-265 | a tie needs an even number of votes and rejects |
| `Monopoly.VerdictOrderIndependent` | monopoly.py:262 | any permutation of the votes gives the same counts and the same verdict |
| `Monopoly.ConfiguredPanelNeedsTwo` | monopoly.py:231-235 | with the three configured advisors, the comparison on line 262 accepts iff at least two approve |
| `Monopoly.CollectVotes` | monopoly.py:237-258 | one vote per advisor, in advisor order; vote i is the classification of advisor i's response |
| `Monopoly.DecideProposal` | monopoly.py:237-265 | the votes as in `CollectVotes`; approvals plus rejections equal the number of advisors; accepted iff approvals strictly outnumber rejections, iff a strict majority of the advisors approve |

## Left out

- The LLM calls (`ChatOpenAI`, `with_structured_output`, `invoke`) and the `Output` schema class: the decision maker's answers are inputs to the model, one `Response` per advisor.
- The agent's own proposal: it only feeds the advisors' prompts, which are not modelled.
- Token and cost accounting with `get_openai_callback`: library plumbing, and the cost is a float.
- The monosim game engine (`initialize_game`, `Player`, bank, board, roads, properties): this code is not part of this model. Its operations are the parameters `play`, `lost` and `getState`, and shared references between engine objects are folded into the single world value `G`. The engine's dice, that is its random-generator state, is part of `G` too, so `play` is a function of the world and the player, and the loop's outcome is unique relative to that state.
- The prompt templates and their `str.format` rendering: constant text and a library formatter.
- `load_dotenv` and all `print` output: I/O.
- `Advisors.ParseAdvisorResponse`: lower-casing is modelled for ASCII capitals only. Python's `str.lower` also maps non-ASCII capitals, some of them to two characters; the model keeps every non-ASCII character unchanged. This changes no vote: the only non-ASCII characters that lower to ASCII letters are U+0130 (to "i" plus a combining dot) and U+212A (to "k"), and neither "i" nor "k" occurs in "approve", "accept" or "yes".
- `Advisors.CaseInsensitive`, `Advisors.LowerCasedDecision`: "differ only in letter case" and "lower-cased" are meant in the same ASCII sense as above.
