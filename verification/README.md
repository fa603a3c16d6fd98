# LPeg, dtoa and the codecs of QBase, verified

A Dafny model of the parts of the library that do the hardest work, with proofs about every input and every run.

**LPeg** (`QBase/Lpeg`) turns a parsing expression grammar into a program for a small backtracking machine. `lptree.c`
builds pattern trees in flat node arrays and verifies grammars, `lpcode.c` analyses the trees, generates code with several
context-dependent optimizations and runs a peephole pass, `lpvm.c` runs the code with an explicit stack of choices and calls,
and `lpcap.c` turns the resulting list of capture entries into values. The model gives patterns a big-step semantics
(`Patterns.Match`) and proves that what the library does agrees with it: the end-to-end result is that compiling a
pattern, optimizing it and running it ends with exactly the answer and the captures of the semantics. This is proved for
every pattern without match-time captures whose grammars, also those inside of grammars, are accepted and not left recursive,
for the generator with four defects put right; and for the generator as it stands for all those patterns that stay clear of
the defects, with the condition for each. When `verifygrammar` accepts a left recursive grammar, which takes a sub-grammar,
is proved too.

**dtoa** (`QBase/LuaCJson/dtoa.c`) prints numbers. The model covers its multiple-precision integers and both digit
loops, and proves that a given number of digits is the quotient of the two big integers rounded half to even, and that the
shortest digits lie between the half-gaps to the neighbouring numbers while no shorter ones do.

**The codecs** come with their inverses: quoted-printable (`QBase/LuaSocket/mime.c`) as a pipeline of three filters that may be
fed in any chunks, JSON (`QBase/LuaCJson/lua_cjson.c`, `strbuf.c`) with its unchecked appends, the streaming of SHA-1 and
MD5 (`QBase/SHA1.cpp`, `QBase/md5.cpp`), and length-prefixed messages over a connection (`QBase/TcpParser.cpp`).

| module | models |
|---|---|
| `Common`, `Patterns`, `Analysis` | trees and their meaning; `checkaux`, `fixedlenx`, `getfirst`, `headfail`, `needfollow` and their soundness |
| `Machine` | the instructions and one step of the machine; runs and how they end |
| `Charsets`, `CodeGen`, `Linking` | `charsettype` on bitmaps; the code for each tree; `correctcalls` and the layout of grammars |
| `Simulation`, `Correctness` | each shape of code simulates its tree; the whole program does |
| `Peephole`, `Chains`, `Straight` | the peephole pass preserves every run; chains of jumps end, also in code that is only partly linked; after the pass nothing leads to a jump |
| `Descents`, `Scans`, `Firsts` | when the recursive analyses come back: the search for captures and the computation of first sets exactly where they do not run into a circle, the others in every accepted grammar |
| `Limits` | exactly when a call leads to its rule; look-behinds that look for a rule |
| `Shapes`, `FirstSets` | `nofail` and `fixedlen` tell all that the shape of a pattern can tell; `getfirst` and `headfail` in textbook terms |
| `Paths`, `Grammars`, `SubGrammars`, `Loops` | searches with a budget and circles; `verifygrammar`, left recursion, calls that a sub-grammar hides, and empty loops |
| `Totality` | matching with grammars that are not left recursive is total |
| `Compile`, `Library` | `compile` and `lp_match` as a whole |
| `Emitter`, `Matcher`, `Captures` | the same code generator, machine and capture walk as the C code has them: classes that change a code buffer, a stack, a capture array and a cursor in place, proved equal to the functions above |
| `CaptureValues` | the values of a match, defined on the pattern itself |
| `Defect`, `OptLoops` | what line 762 of `lpcode.c` does wrong, and exactly when; exactly when it makes a difference to the program |
| `Builders`, `Layout`, `TreeArrays` | the simplifications and repetitions of the pattern constructors; trees in node arrays, `correctassociativity`, `finalfix`, `newgrammar`, `lp_star`, `fillseq` |
| `Words`, `BigInts`, `Powers` | word arithmetic; `multadd`, `mult`, `lshift`, `cmp`, `diff`, `pow5mult` with its cache, `s2b` |
| `Quotients`, `Decimals`, `Shortest` | `hi0bits`, `dshift`, `quorem`; the digit loops and the rounding at the end of `dtoa` |
| `QuotedPrintable`, `Mime` | the encoder, wrapper and decoder as machines over bytes, the pipeline, and the filters of `mime.c` |
| `QpTexts` | what encoder and decoder have to do, said about whole texts |
| `Json`, `JsonNumbers`, `JsonCode` | printing, scanning and parsing as functions; the growing buffer, the printer and the parser as they are in C |
| `JsonTexts`, `JsonPrinted` | which texts stand for which value, after RFC 4627, and that the decoder takes these and no others; printed text is one of them |
| `Framing` | heads, frames and the loop that takes messages out of a connection's queue |
| `Streams`, `Digests` | counting, buffering and padding for both hash classes |
| `Rfc3174`, `Sha1`, `Sha1Example` | SHA-1 as RFC 3174 has it; `Transform` against it; the digest of "abc", worked out |

## How to read it

* Fuel: `Match` takes a bound on nested calls and iterations and answers `Out` when it is not enough. More fuel never
  changes an answer (`Patterns.MoreFuel`), and for every pattern whose grammars are accepted and not left recursive and whose
  look-behinds look for no rule some fuel is enough (`Compile.PatternTotal`), so the main theorems speak of the answer
  (`Totality.Answer`) without any bound.
* `depth` bounds how many calls deep an analysis follows rules, where the C code recurses without a bound. Beyond it the
  analyses give the answer that promises nothing, so all soundness results hold for every depth. `Descents` says when an
  analysis comes back within a depth, and that it has the same answer at every larger one, which is the answer of the
  unbounded recursion. In grammars that are not left recursive `nullable`, `nofail` and `headfail` come back
  (`Firsts.AnalysesStable`); for the other two `Firsts.FirstExact` and `Scans.ScanEnds` tell exactly when no depth is enough.
* `Version` says which of four defects of the code generator are there: `passOpt` is line 762 of `lpcode.c`, `byteRules`
  the byte in which a rule's number is stored, `endless` the search for captures without an end, `deepFirst` the computation
  of first sets without an end. `AsIs` is the source as it stands, with all four, and `Intended` has none. All results hold for
  every version, under `OptSafe`, `Narrow` and `Decided` where the defects matter (together `Compile.Clear`); all three hold
  for `Intended` (`Compile.AlwaysClear`).
* `Grown` (inside of `Built`) is what the builders make of grammars, with one thing added: they are accepted by
  `verifygrammar` and no used rule is left recursive. The second follows from the first for grammars without sub-grammars
  (`SubGrammars.FlatAcyclic`) and for all in which no call is hidden (`SubGrammars.KeptAcyclic`); what both
  come to, without any depth, is said by `Loops.GrownExact`.
* A run is judged by how it ends (`Machine.Eval`). A machine that would read a stack entry of the wrong kind, leave the
  code or the subject, or end with more than the bottom entry on its stack ends `Stuck`, so equality with an expected verdict
  includes that none of this happens in any run of compiled code.
* One slot is one `Instruction` of the C code. Multi-slot instructions are followed by `IPad` slots, and all offsets are
  the ones that the C code computes.

## Where the code departs from its intent

* `QBase/Lpeg/lpcode.c:762` passes `opt` to the body of a loop that is guarded by a test only. The body may then overwrite
  the choice of the enclosing option, and a failure in a later round leaves the loop as if it had succeeded there. For the
  tree of `((a (bc)?)*)?` on "aabc" the program ends at 1 and the semantics at 4 (`Defect.Example`). `Compile.IntendedCorrect`
  is the theorem for the intended line. For the source as it stands, `Compile.PatternCorrect` holds under the syntactic
  condition `OptSafe`, which is met if and only if the line makes no difference to the program (`OptLoops.OptSafeExact`); and for the whole family of the example, loops over `a q?` under an option with any `q`, the program
  is right on all subjects if and only if `q` cannot fail between two `a` (`Defect.DefectExact`).
* A rule's number is stored in a byte of its node (`QBase/Lpeg/lptree.h:44`), while a grammar may have 1000 rules. A call of
  rule n leads to rule n modulo 256, so it leads to its rule if and only if n is below 256 (`Limits.LinkExact`), and the
  program is the one with whole numbers if and only if every call that gets code names such a rule (`Limits.ByteExact`). In
  a grammar of 257 rules whose first one calls the last, the call becomes a jump to itself, from which `finaltarget` never
  comes to a stop (`Limits.WideFails`).
* `hascaptures` (`QBase/Lpeg/lpcode.c:131-150`) follows a call to the rule and to all rules after it, without a bound. It
  ends if and only if that does not lead round in a circle before a capture is met (`Scans.ScanEnds`). It never ends, and so
  `compile` never does, for the capture of the predicate !S with S <- 'x' S / 'y' (`Scans.NeverCompiled`).
* `getfirst` (`QBase/Lpeg/lpcode.c:327-340`) goes on into the bodies of predicates and look-behinds. `verifyrule` goes into
  predicates, but returns at a look-behind. So `getfirst` ends if and only if following left calls, look-behinds included,
  does not lead round in a circle (`Firsts.FirstExact`), which in an accepted grammar takes a look-behind that looks for a
  rule (`Firsts.ClosedFirst`). `compile` never ends for S <- B(!!S 'a') 'b' (`Limits.TurningNeverCompiled`), although the
  grammar is accepted and clear of the other defects (`Limits.TurningAccepted`). The whole of `compile` ends exactly if none of
  its analyses runs into a circle (`Firsts.DecidedExact`).
* The body of a look-behind may call rules, if the calls are inside of predicates: `lp_behind` looks at it while they are
  open, with its assertions compiled out (`QBase/Lpeg/lptypes.h:11-14`), and `verifyrule` does not go into it. With
  S <- 'a' B(!!S 'a'), which is accepted, matching "a" has no answer (`Limits.BackwardNoAnswer`); totality is proved for
  patterns without such calls (`BehindsClosed`). Where there is an answer and `compile` ends, the program gives it.
* At a sub-grammar `verifyrule` (`QBase/Lpeg/lptree.c:980-981`) forgets that what came before it may be empty. Its idea of
  what is nullable is right if and only if this does not happen last (`SubGrammars.DropsExact`); it follows the left calls if
  and only if none is hidden behind such a place (`SubGrammars.HiddenBehindDrop`, `SubGrammars.KeptExact`); and an accepted rule
  is left recursive if and only if some circle goes through a hidden call (`SubGrammars.LeftRecursionExact`). An example is
  S <- (!'b' / {A <- 'a'}) S / 'c', which is accepted (`SubGrammars.CovertAccepted`), and with which matching "c" never ends
  (`SubGrammars.CovertNoAnswer`).
* `mult` and `quorem` leave a zero with no word in use, which `cmp` takes to be smaller than any other zero; the contract
  of `Cmp` says so, and `Shortest.Compare` is where it matters. The product of two such zeros has a first word that is
  never set, which the contract of `Mult` shows. In `quorem`, adding 1 to a top word of 0xFFFFFFFF would wrap and divide
  by zero; the contract of `Quorem` excludes that, and `dshift` makes sure of it.
* `CMD5::final` restores state and count but not the buffer, so a digest taken in mid-stream spoils the stream if and only if
  56 or more bytes are pending and differ from what the padding leaves there (`Digests.Md5Final`).
* `CSHA1::Update` compares `j + uLen` with 63 in 32 bits. With j bytes in the buffer this, and the loop's test in both hash
  classes, is right if and only if j + uLen stays below 2^32 (`Streams.TestExact`, `Streams.LoopExact`). Beyond that SHA-1
  copies the whole input into its buffer of 64 bytes, and MD5 reads past the end of the input; one byte in the buffer and
  2^32 - 1 more are an example (`Streams.TooLong`).
* `unqp` (`QBase/LuaSocket/mime.c:560`) looks at the first byte of the decoded text to tell whether it is empty, so at the
  end of input a text that begins with a zero byte is lost: "=00" gives nil (`Mime.ZeroLost`). Fed in chunks nothing is lost,
  since only undecided bytes are left for the last call (`Mime.PendingAnswered`).
* `qpwrp` with lines of three bytes or fewer breaks an =XX in the middle (`Mime.NarrowBreaks`); from four on it never does.
* `parseHead` takes a first byte from 128 on for a negative length and widens it with its sign. With 255 the sum of head and
  length wraps to nothing, so that nothing is ever taken out of the queue again (`Framing.Stuck`). A frame comes through if
  and only if head and message are together shorter than 2^32 bytes (`Framing.FrameExact`).
* An empty array is printed as an empty object by the JSON codec, since both are the same table in Lua.

## Model

| member | source | states |
|---|---|---|
| Analysis.NullableSound | QBase/Lpeg/lpcode.c:154-206 | a match that consumes nothing implies `nullable` |
| Analysis.NoFailSound | QBase/Lpeg/lpcode.c:154-206 | a `nofail` pattern never fails, at any position of any subject |
| Shapes.NoFailExact | QBase/Lpeg/lpcode.c:154-206 | over accepted rules `nofail` says yes if and only if no pattern of that shape can fail, whatever its sets are and whatever its not-predicates and look-behinds ask for |
| Analysis.NoFailNullable | QBase/Lpeg/lpcode.c:164-165 | `nofail` implies `nullable` |
| Analysis.FixedLenSound | QBase/Lpeg/lpcode.c:213-246 | a pattern of fixed length n consumes exactly n characters on every success |
| Shapes.FixedLenExact | QBase/Lpeg/lpcode.c:213-246 | `fixedlen` gives n if and only if all ways through the pattern are n characters long, where repetitions, and calls more than MAXRULES deep, may have any length |
| Analysis.NoCaptures | QBase/Lpeg/lpcode.c:131-150 | a pattern in which `hascaptures` ends without finding a capture never captures |
| Analysis.FirstSound | QBase/Lpeg/lpcode.c:267-344 | a match that consumes something, or whose next character is in the follow set, starts with a character of the first set |
| FirstSets.FirstTextbook | QBase/Lpeg/lpcode.c:267-344 | over rules that are not left recursive and have no predicates whose own first set counts: the first set holds just the characters that the pattern may begin with, and those that may follow if it may be empty; the flag says whether it may |
| Analysis.FirstEmptySound | QBase/Lpeg/lpcode.c:256-267 | if `getfirst` returns 0, the pattern does not match at the end of the subject |
| Analysis.TestSound | QBase/Lpeg/lpcode.c:587-612 | a test on the first set lets through every position where the pattern matches |
| Analysis.HeadFailExact | QBase/Lpeg/lpcode.c:350-372 | a `headfail` pattern matches if and only if there is a next character and it is in the first set |
| FirstSets.HeadFailTextbook | QBase/Lpeg/lpcode.c:350-372 | for the same patterns as `FirstTextbook`: `headfail` holds if and only if the pattern cannot be empty and nothing that stands behind its first part can fail |
| Charsets.CharsetTypeOf | QBase/Lpeg/lpcode.c:41-82 | the loop over the 32 bytes of a bitmap, with its bit tricks, tells empty, singleton (with its character), full and other sets apart exactly |
| Linking.GenLaid | QBase/Lpeg/lpcode.c:411-420 | generated code is a proper layout of multi-slot instructions, and its open calls name existing rules |
| Linking.CorrectSpec | QBase/Lpeg/lpcode.c:816-833 | `correctcalls` turns exactly the open calls into calls of the right rule, or into jumps where only a return follows, although it reads code that it has partly rewritten |
| Linking.GrammarLoaded | QBase/Lpeg/lpcode.c:840-856 | in the code of a grammar every rule starts at its recorded position, is followed by a return, and an open call leads to the rule whose number it carries |
| Simulation.SpanCase | QBase/Lpeg/lpcode.c:752-755 | ISpan does what the repetition of a charset does |
| Simulation.ChoiceTestCase | QBase/Lpeg/lpcode.c:655-666 | a choice by a test alone, without a backtrack entry, gives the right outcome for every continuation that fails outside of the follow set |
| Simulation.ChoiceCase | QBase/Lpeg/lpcode.c:672-684 | test, choice, p1, commit, p2 behaves like the ordered choice |
| Simulation.ChoiceOptCase | QBase/Lpeg/lpcode.c:667-671 | under an enclosing option, p? by a partial commit on the choice that is already on the stack is the same as p? |
| Simulation.RepTestCase | QBase/Lpeg/lpcode.c:757-766 | a loop guarded by a test alone behaves like the repetition for every continuation that fails outside of the follow set |
| Simulation.RepCase | QBase/Lpeg/lpcode.c:767-783 | one round of the loop that keeps its choice up to date by partial commits |
| Simulation.NotCase | QBase/Lpeg/lpcode.c:795-809 | choice, p, failtwice succeeds exactly if p fails, and leaves position, stack and captures as they were |
| Simulation.AndBehindCase | QBase/Lpeg/lpcode.c:693-699 | &p == p; behind n for patterns of fixed length n |
| Simulation.AndChoiceCase | QBase/Lpeg/lpcode.c:700-708 | choice, p, backcommit, fail is the and-predicate and drops the captures of p |
| Simulation.FullCaptureCase | QBase/Lpeg/lpcode.c:719-723 | one IFullCapture after a match of fixed length denotes the capture of that match |
| Simulation.CloseEncodes | QBase/Lpeg/lpvm.c:318-333 | collapsing an open entry into a full one on ICloseCapture gives the entries of the same capture forest |
| Simulation.OpenCaptureCase | QBase/Lpeg/lpcode.c:724-728 | open, p, close denotes the capture of p with the captures of p inside |
| Simulation.CallCase | QBase/Lpeg/lpvm.c:248-256 | a call, or a jump where only a return follows, does what the called rule does |
| Correctness.TestDecides | QBase/Lpeg/lpcode.c:587-612 | the test emitted for a pattern passes wherever the pattern can match, and decides it for `headfail` patterns |
| Correctness.SimSeq | QBase/Lpeg/lpcode.c:871-883 | `codeseq1` hands the first child a follow set outside of which the second child fails, and keeps the protecting test only while nothing is consumed |
| Correctness.Sim | QBase/Lpeg/lpcode.c:891-916 | the code of any tree whose called rules have numbers that fit, in any program, context and state, does what the semantics says: same end, same captures, or failure to the same backtrack point |
| Correctness.CompileCorrect | QBase/Lpeg/lpcode.c:973-982 | before the peephole pass: the run of the generated program ends with the result of the semantics, nested grammars and captures included, for patterns clear of the two defects that change code |
| Peephole.RewriteSound | QBase/Lpeg/lpcode.c:928-967 | replacing a jump by what it finally leads to, at one site, changes no run that does not get stuck |
| Peephole.PeepholeSound | QBase/Lpeg/lpcode.c:928-967 | the whole peephole pass changes no run that does not get stuck |
| Straight.PassDirect | QBase/Lpeg/lpcode.c:919-967 | after the pass over any program in which chains of jumps end, no label leads to a jump, and no jump leads to an instruction that it could have become |
| Straight.CompiledDirect | QBase/Lpeg/lpcode.c:973-982 | so it is in every compiled pattern whose grammars are accepted and not left recursive and whose called rules have numbers that fit |
| Straight.GenTiled | QBase/Lpeg/lpcode.c:891-916 | generated code consists of whole instructions, each with the pads of its size, so that the pass comes to all of them |
| Chains.GenEnds | QBase/Lpeg/lpcode.c:614-630 | no cycle of jumps in the code of any grammar-free pattern, and of any pattern with grammars, also inside of grammars, that are not left recursive and whose called rules have numbers that fit |
| Chains.RuleEnds | QBase/Lpeg/lpcode.c:816-833 | from a rule that is not left recursive tail calls form no cycle, because each of them is a left call of the rule it names |
| Chains.ProgramBounded | QBase/Lpeg/lpcode.c:614-622 | the label-chasing loop of `finaltarget` ends, within as many rounds as there are slots, for patterns whose grammars are accepted and not left recursive and whose called rules have numbers that fit |
| Chains.HalfEnds | QBase/Lpeg/lpcode.c:816-833 | chains of jumps also end in the code that `correctcalls` has rewritten up to any slot, if they do in the code that it leaves |
| Scans.ScanEnds | QBase/Lpeg/lpcode.c:131-150 | `hascaptures` ends if and only if following its calls does not come round in a circle before a capture is met, and then within a depth given by the number of rules; it answers no exactly where neither a capture nor a call that can come round is met |
| Scans.CapturesStable | QBase/Lpeg/lpcode.c:131-150 | its outcome is the same at every depth that is enough, nested grammars included |
| Scans.SearchExact | QBase/Lpeg/lpcode.c:693-729 | `codeand` and `codecapture` get past their search for captures if and only if they need none or it runs into no circle |
| Scans.OpenScan | QBase/Lpeg/lptree.c:643-654 | a pattern in which `lp_behind` finds no captures while calls are open has none anywhere |
| Scans.NeverCompiled | QBase/Lpeg/lpcode.c:717-729 | a pattern with an accepted grammar for which no depth is enough, so that `compile` never ends |
| Descents.CheckMore | QBase/Lpeg/lpcode.c:172-206 | where `checkaux` comes back within a depth, every larger one gives the same answer |
| Descents.FirstMore | QBase/Lpeg/lpcode.c:267-344 | the same for `getfirst`, which goes into predicates and look-behinds |
| Descents.HeadMore | QBase/Lpeg/lpcode.c:350-372 | the same for `headfail` |
| Firsts.FirstExact | QBase/Lpeg/lpcode.c:267-344 | `getfirst` comes back if and only if following left calls, in the bodies of look-behinds too, does not lead round in a circle, and then within a depth given by the number of rules; for all trees, sub-grammars included |
| Firsts.ClosedFirst | QBase/Lpeg/lpcode.c:327-340 | it comes back in every accepted grammar without left recursion in which no look-behind looks for a rule |
| Firsts.AnalysesStable | QBase/Lpeg/lpcode.c:154-372 | over rules that are not left recursive, `nullable`, `nofail` and `headfail` come back, `getfirst` does if and only if it runs into no circle, and all of them and `hascaptures` have the same answer at every ample depth |
| Firsts.DecidedExact | QBase/Lpeg/lpcode.c:891-916 | all analyses of a whole compilation end if and only if none of them runs into a circle |
| Limits.TurningAccepted | QBase/Lpeg/lptree.c:944-985 | the grammar S <- B(!!S "a") "b" is accepted and clear of the other defects |
| Limits.TurningNeverCompiled | QBase/Lpeg/lpcode.c:327-340 | and for it no depth is enough, so that `compile` never ends |
| Limits.LinkExact | QBase/Lpeg/lpcode.c:816-833 | after `correctcalls` a call of rule n leads to rule n if and only if n fits into the byte of the rule node |
| Limits.ByteExact | QBase/Lpeg/lpcode.c:859-863 | keeping rule numbers in a byte leaves the program of a pattern as it is if and only if every call that gets code names a rule below 256 |
| Limits.NarrowCoded | QBase/Lpeg/lpcode.c:859-863 | so patterns whose calls all name rules below 256 are compiled as if numbers were whole |
| Limits.WideFails | QBase/Lpeg/lptree.c:883-899 | a grammar of 257 rules that is accepted and matches "a", but is compiled to a jump to itself, at which `finaltarget` stays for any number of rounds |
| Limits.AheadTaken | QBase/Lpeg/lptree.c:643-654 | `lp_behind` takes a body with a call inside of predicates, with its fixed length and no captures |
| Limits.BackwardAccepted | QBase/Lpeg/lptree.c:944-985 | `verifygrammar` accepts a grammar that looks behind for its own rule |
| Limits.BackwardNoAnswer | QBase/Lpeg/lptree.c:944-985 | and matching with it has no answer at any fuel |
| Grammars.AcyclicExact | QBase/Lpeg/lptree.c:944-1005 | left calls from used rules go no deeper than MAXRULES if and only if no chain of them comes round in a circle |
| Grammars.OwnRecursionExact | QBase/Lpeg/lptree.c:944-1005 | `verifygrammar` reports no left recursion if and only if no chain of the calls that `verifyrule` comes to runs into a circle, with its own idea of what is nullable, sub-grammars included |
| SubGrammars.GrammarNulls | QBase/Lpeg/lptree.c:980-981 | at a sub-grammar that is not left recursive `nullable` comes back with the true answer |
| SubGrammars.DropsExact | QBase/Lpeg/lptree.c:944-985 | `verifyrule` has computed whether the pattern may be empty if and only if the flag was not dropped last |
| SubGrammars.HiddenBehindDrop | QBase/Lpeg/lptree.c:963-967 | a second child is hidden from `verifyrule` if and only if the flag was dropped in the first |
| SubGrammars.LeftIs | QBase/Lpeg/lptree.c:944-985 | the left calls are those that `verifyrule` comes to and the hidden ones |
| SubGrammars.KeptExact | QBase/Lpeg/lptree.c:944-985 | `verifyrule` follows the true left-call relation if and only if no call is hidden |
| SubGrammars.KeptAcyclic | QBase/Lpeg/lptree.c:987-994 | where none is, `verifygrammar` reports no left recursion if and only if there is none |
| Loops.LoopsExact | QBase/Lpeg/lptree.c:905-922 | over rules that are not left recursive `checkloops` finds something if and only if some repetition of the pattern, outside of sub-grammars, has a body that may match the empty string |
| Loops.AcyclicVerified | QBase/Lpeg/lptree.c:987-1005 | `verifygrammar` accepts rules that are not left recursive if and only if there are any and no used one has such a loop |
| Loops.VerifiedExact | QBase/Lpeg/lptree.c:987-1005 | without sub-grammars, or with no call hidden: it accepts a grammar if and only if there are rules, no chain of left calls from a used one runs into a circle, and no used one has such a loop |
| Loops.GrownExact | QBase/Lpeg/lptree.c:987-1005 | all grammars of a pattern are accepted and not left recursive if and only if none of them is empty, left recursive or has such a loop in a used rule; how deep calls are followed does not matter |
| SubGrammars.LeftRecursionExact | QBase/Lpeg/lptree.c:944-1005 | without sub-grammars, or with no call hidden, `verifygrammar` reports no left recursion if and only if no chain of left calls from a used rule comes round in a circle; otherwise an accepted rule is left recursive if and only if a circle goes through a hidden call |
| SubGrammars.CovertAccepted | QBase/Lpeg/lptree.c:980-981 | a left recursive grammar that is accepted, with its hidden call |
| SubGrammars.CovertNoAnswer | QBase/Lpeg/lptree.c:980-981 | matching with it never ends |
| Totality.AcceptedTotal | QBase/Lpeg/lptree.c:905-1005 | matching any tree over rules that are not left recursive has an answer, sub-grammars included, if no look-behind looks for a rule (nesting of grammars, remaining input, left-call budget and tree decrease) |
| Totality.GrammarTotal | QBase/Lpeg/lptree.c:987-1005 | matching with such a grammar has an answer on every subject |
| Compile.CompiledCorrect | QBase/Lpeg/lpcode.c:973-982 | `compile` with its peephole pass: for a pattern clear of the four defects, whenever the semantics has a result, the run ends with it |
| Compile.PatternTotal | QBase/Lpeg/lptree.c:535-566 | matching a pattern whose loop bodies are not nullable, whose grammars are accepted and not left recursive and whose look-behinds look for no rule always has an answer |
| Compile.PatternCorrect | QBase/Lpeg/lpcode.c:534-982 | end to end, for patterns with such grammars that are clear of the four defects: there is an answer unless a look-behind looks for a rule, and wherever there is one the run of the compiled program ends with it and its captures |
| Compile.SourceCorrect | QBase/Lpeg/lpcode.c:534-982 | the same for the source as it stands, with conditions on the pattern alone: `opt` reaches no loop that depends on it, called rules are below 256, and neither the search for captures nor `getfirst` runs into a circle |
| Compile.IntendedCorrect | QBase/Lpeg/lpcode.c:749-785 | the same with no condition on defects, for the generator without them |
| CodeGen.OptUnused | QBase/Lpeg/lpcode.c:757-766 | where the code of a body does not depend on `opt`, passing it is harmless |
| CodeGen.AlwaysSafe | QBase/Lpeg/lpcode.c:762-762 | the condition `OptSafe` is about line 762 only |
| OptLoops.OptSafeExact | QBase/Lpeg/lpcode.c:762-762 | `OptSafe` holds if and only if the program is the one that the generator gives with line 762 put right |
| Defect.LiteralVerdict | QBase/Lpeg/lpcode.c:757-766 | what the program for ((a q?)*)? really computes: it leaves the loop at the first failure of q |
| Defect.StopsEarly | QBase/Lpeg/lpcode.c:762-762 | wherever q fails between two a, the program stops after the first of them and the semantics does not |
| Defect.DefectExact | QBase/Lpeg/lpcode.c:762-762 | the program for ((a q?)*)? is right on all subjects if and only if q never fails between two a |
| Defect.Example | QBase/Lpeg/lpcode.c:762-762 | ((a (bc)?)*)? on "aabc": the program ends at 1, the semantics at 4, and the side condition rejects the tree |
| Emitter.CompileState.AddInstruction | QBase/Lpeg/lpcode.c:456-475 | appends one slot and returns its position |
| Emitter.CompileState.JumpToThere | QBase/Lpeg/lpcode.c:516-519 | patches the offset of an instruction to lead to the target, or nothing for NOINST |
| Emitter.CompileState.CodeCharInst | QBase/Lpeg/lpcode.c:534-542 | the character, or IAny when the test in front has already seen it |
| Emitter.CompileState.CodeCharsetInst | QBase/Lpeg/lpcode.c:561-582 | the instruction for each kind of set, or IAny after the same test |
| Emitter.CompileState.CodeTestSet | QBase/Lpeg/lpcode.c:587-608 | the test for a first set, with its offset open |
| Emitter.CompileState.CodeChoice | QBase/Lpeg/lpcode.c:650-685 | emitting with open offsets and patching them afterwards gives the code of the choice, with offsets in place, where the analyses it asks for come back |
| Emitter.CompileState.CodeRep | QBase/Lpeg/lpcode.c:749-785 | the same for repetitions |
| Emitter.CompileState.CodeNot | QBase/Lpeg/lpcode.c:795-809 | the same for the not-predicate |
| Emitter.CompileState.CodeAnd | QBase/Lpeg/lpcode.c:693-709 | the same for the and-predicate, where the search for captures ends |
| Emitter.CompileState.CodeCapture | QBase/Lpeg/lpcode.c:717-729 | the same for captures, where the search for captures ends |
| Emitter.CompileState.CodeGrammar | QBase/Lpeg/lpcode.c:840-856 | the same for grammars, with rule positions recorded and calls corrected in place, where analyses and the chains of jumps end that this leaves |
| Emitter.CompileState.CodeGen | QBase/Lpeg/lpcode.c:891-916 | appends exactly the code of the tree and leaves what was there, where all its analyses and chains end |
| Emitter.CompileState.CorrectCallsFrom | QBase/Lpeg/lpcode.c:816-833 | rewrites the open calls of the code from a position on, and nothing before it; the loop over jumps that it runs on partly rewritten code ends |
| Emitter.CompileState.ChaseJumps | QBase/Lpeg/lpcode.c:614-619 | the loop finds the end of a chain of jumps |
| Emitter.CompileState.PeepholeAt | QBase/Lpeg/lpcode.c:932-964 | one site of the pass, with its `goto redo` |
| Emitter.CompileState.PeepholePass | QBase/Lpeg/lpcode.c:928-967 | the pass, each label chase of which ends |
| Emitter.CompileState.CompilePattern | QBase/Lpeg/lpcode.c:973-982 | ends with the compiled program in the buffer, where analyses and chains of jumps end |
| Matcher.Matcher.constructor | QBase/Lpeg/lpvm.c:151-164 | the initial state: the give-up entry alone on the stack |
| Matcher.Matcher.PushFrame | QBase/Lpeg/lpvm.c:68-84 | pushes an entry, into a stack of twice the size when it is full |
| Matcher.Matcher.PushCapture | QBase/Lpeg/lpvm.c:338-351 | appends a capture entry and keeps room for one more |
| Matcher.Matcher.Fail | QBase/Lpeg/lpvm.c:280-292 | pops pending calls and resumes at the newest choice, with its position and capture count |
| Matcher.Matcher.StepOnce | QBase/Lpeg/lpvm.c:170-352 | one instruction, on the arrays: the state is the next state of the machine |
| Matcher.Matcher.Loop | QBase/Lpeg/lpvm.c:165-355 | the main loop ends with the verdict of the run |
| Matcher.RunProgram | QBase/Lpeg/lpvm.c:151-355 | a run that ends at all is carried out to its end |
| Library.MatchPattern | QBase/Lpeg/lptree.c:1098-1120 | compile and run, for patterns clear of the defects: the verdict is the answer of the semantics |
| Library.MatchValues | QBase/Lpeg/lptree.c:1098-1120 | match and evaluate: the values are those that the pattern gives (`CaptureValues.Gives`), or the end position if there are none |
| Captures.CloseSkipsAll | QBase/Lpeg/lpcap.c:67-80 | a balanced part of the list does not affect the search for a close entry |
| Captures.OpenSkipsAll | QBase/Lpeg/lpcap.c:53-62 | a balanced part of the list does not affect the search for an open entry |
| Captures.NextCap | QBase/Lpeg/lpcap.c:67-80 | from the first entry of a capture it stops right after that capture |
| Captures.FindOpen | QBase/Lpeg/lpcap.c:53-62 | from the close entry of a capture it stops at the open entry of that capture |
| Captures.CapState.PushNestedValues | QBase/Lpeg/lpcap.c:90-107 | the values of the nested captures in order, with the whole match where it is asked for or there are none, and the cursor after the capture |
| Captures.CapState.SubstCap | QBase/Lpeg/lpcap.c:401-418 | the text of the match with each nested capture replaced by its first value |
| Captures.CapState.AddOneString | QBase/Lpeg/lpcap.c:425-444 | the first value of a capture as text, if it has one |
| Captures.CapState.PushCapture | QBase/Lpeg/lpcap.c:452-512 | the values of a simple, group, position, constant or substitution capture |
| Captures.CapState.GetCaptures | QBase/Lpeg/lpcap.c:523-540 | all values of the match, or its end position if there are none |
| CaptureValues.MatchGives | QBase/Lpeg/lpcap.c:401-512 | the values of a match by the constructs of its pattern: those of p q are the values of p and then those of q; a simple capture gives its text and then the values inside, a position its place, a named group nothing, an unnamed one its text only where there is nothing inside, and a substitution the text in which every capture is replaced by its first value, if it has one |
| CaptureValues.SubstitutedWoven | QBase/Lpeg/lpcap.c:401-418 | the loop of `substcap` joins the pieces between the captures with the replacements |
| CaptureValues.KeepsText | QBase/Lpeg/lpcap.c:401-418 | a substitution whose outermost captures have their own text as first value, or no value, changes nothing |
| CaptureValues.NestedExample | QBase/Lpeg/lpcap.c:473-477 | C(C"a" "b") on "ab" gives "ab" and then "a" |
| Captures.MatchPlain | QBase/Lpeg/lptree.c:683-700 | captures of a match lie in order inside of the subject |
| Builders.SeqSame | QBase/Lpeg/lptree.c:495-506 | the simplifications of `lp_seq` keep the outcome |
| Builders.ChoiceSame | QBase/Lpeg/lptree.c:514-531 | the simplifications of `lp_choice`, with merged sets and `nofail`, keep the outcome |
| Builders.SubSame | QBase/Lpeg/lptree.c:590-609 | the difference of two sets is !t2 t1 |
| Builders.RepIsGreedy | QBase/Lpeg/lptree.c:535-566 | p* matches p as often as possible |
| Builders.AtLeast | QBase/Lpeg/lptree.c:539-547 | p^n matches greedily, and succeeds if and only if that is at least n times |
| Builders.AtMost | QBase/Lpeg/lptree.c:548-563 | p^-n matches greedily at most n times and never fails |
| Builders.LiteralMatches | QBase/Lpeg/lptree.c:287-300 | a string pattern matches exactly that string |
| Builders.NumMatches | QBase/Lpeg/lptree.c:260-281 | n matches n characters; -n matches where fewer than n are left |
| Builders.RotatedSame | QBase/Lpeg/lptree.c:75-94 | right association keeps the outcome |
| Layout.HoldsMoved | QBase/Lpeg/lptree.h:39-48 | a tree moved as a block of nodes is the same tree, calls inside sub-grammars included |
| Layout.CalledNumber | QBase/Lpeg/lpcode.c:859-863 | what `codecall` reads for a call of rule n, through the second sibling of the call node, is the byte of n in that rule's node |
| Layout.FixedShape | QBase/Lpeg/lptree.c:97-131 | after `finalfix` all sequences and choices are right associative and the size is unchanged |
| Layout.FixedSame | QBase/Lpeg/lptree.c:97-131 | rearranging a pattern and all rules it may call keeps every outcome |
| Layout.GrammarSame | QBase/Lpeg/lptree.c:1021-1038 | the grammar that `newgrammar` leaves means the same as the rules given |
| TreeArrays.CorrectAssociativity | QBase/Lpeg/lptree.c:82-94 | ends, leaves the rotated tree in the same slots and touches no others |
| TreeArrays.RotateRight | QBase/Lpeg/lptree.c:85-93 | one `memmove` and two offsets turn Op (Op t11 t12) t2 into Op t11 (Op t12 t2) |
| TreeArrays.FixOneCall | QBase/Lpeg/lptree.c:58-73 | the call refers to its rule by a relative offset and the rule gets its key; fails if and only if there is no such rule |
| TreeArrays.FinalFix | QBase/Lpeg/lptree.c:104-131 | leaves the right-associative tree with all calls directed, changes nothing else but the keys of called rules; fails if and only if some call has no rule |
| TreeArrays.CollectRules | QBase/Lpeg/lptree.c:854-880 | the position table and the total size |
| TreeArrays.BuildGrammar | QBase/Lpeg/lptree.c:883-899 | all rules are in place, numbered in a byte and without keys |
| TreeArrays.NewGrammar | QBase/Lpeg/lptree.c:1021-1038 | the array holds the grammar of the rearranged rules, and a rule has a key if and only if it is used; fails if and only if there are too many rules or a call has no rule |
| TreeArrays.StarSize | QBase/Lpeg/lptree.c:540-552 | `lp_star` allocates exactly the slots of its tree |
| TreeArrays.StarTree | QBase/Lpeg/lptree.c:535-566 | `lp_star` fills its slots with the tree of p^n; fails if and only if n >= 0 and p is nullable |
| TreeArrays.FillSeq | QBase/Lpeg/lptree.c:247-257 | the nodes of a string or of n times TAny |
| TreeArrays.NumTree | QBase/Lpeg/lptree.c:265-281 | allocates and fills the tree of a number |
| BigInts.Bigint.constructor | QBase/LuaCJson/dtoa.c:550-591 | 2^k words, none in use |
| BigInts.MultAdd | QBase/LuaCJson/dtoa.c:618-671 | b * m + a exactly, in place or in a number of twice the size, without leading zeros |
| BigInts.Mult | QBase/LuaCJson/dtoa.c:811-919 | a * b exactly, in an allocation that is large enough; without leading zeros unless both have no word |
| BigInts.LShift | QBase/LuaCJson/dtoa.c:980-1037 | b * 2^k exactly |
| BigInts.Cmp | QBase/LuaCJson/dtoa.c:1040-1071 | the sign of a - b; a zero without words counts as smaller than any other zero |
| BigInts.Diff | QBase/LuaCJson/dtoa.c:1074-1165 | the absolute value of a - b, and its sign |
| Powers.Cache.Get | QBase/LuaCJson/dtoa.c:940-973 | the list of squares grows by one correct node when it is too short and is never changed otherwise |
| Powers.Pow5Mult | QBase/LuaCJson/dtoa.c:923-976 | b * 5^k exactly, from every state of the cache |
| Powers.S2b | QBase/LuaCJson/dtoa.c:675-709 | the number that the digits around a decimal point make |
| Quotients.Hi0Bits | QBase/LuaCJson/dtoa.c:713-744 | the number of leading zero bits |
| Quotients.Estimate | QBase/LuaCJson/dtoa.c:2153-2153 | the estimate from the top words is the quotient or one less |
| Quotients.Quorem | QBase/LuaCJson/dtoa.c:2125-2246 | returns the exact quotient and leaves the exact remainder |
| Quotients.TenFits | QBase/LuaCJson/dtoa.c:2143-2147 | anything below ten times a divisor with four leading zero bits has no more words than the divisor |
| Quotients.DShift | QBase/LuaCJson/dtoa.c:2111-2121 | the shift, modulo 32, that leaves four leading zero bits, for every p2 |
| Quotients.ShapeReached | QBase/LuaCJson/dtoa.c:4150-4164 | `dshift` followed by `lshift` gives the divisor exactly four leading zero bits |
| Decimals.RoundOff | QBase/LuaCJson/dtoa.c:4319-4327 | adds one in the last place, drops the nines, and carries into k when all digits are nines |
| Decimals.TrimZeros | QBase/LuaCJson/dtoa.c:4328-4333 | drops trailing zeros and keeps the number |
| Decimals.DigitLoop | QBase/LuaCJson/dtoa.c:4289-4301 | the digits of the quotient, with the exact remainder left; ends early only when that is zero |
| Decimals.RoundedDigits | QBase/LuaCJson/dtoa.c:4289-4333 | b / S rounded half to even to ilim digits, without trailing zeros |
| Decimals.RoundScaled | QBase/LuaCJson/dtoa.c:4150-4164 | rounding does not depend on a common factor |
| Decimals.Convert | QBase/LuaCJson/dtoa.c:4150-4333 | from b * 2^b2 and S * 2^s2 with an estimate of k that may be one too large to the rounded digits and the right k |
| Decimals.FewDigits | QBase/LuaCJson/dtoa.c:4174-4185 | with no digits asked for, or fewer, the number is still rounded half to even: to nothing, or to a one in the place before its first digit |
| Shortest.NotTen | QBase/LuaCJson/dtoa.c:4263-4272 | the first number that lies between the half-gaps ends in no zero, so `round_9_up` is possible in the first place only |
| Shortest.PlaceIs | QBase/LuaCJson/dtoa.c:4201-4274 | at each place, what is left tells whether the number divided so far and the next one lie between the half-gaps, and how far away they are |
| Shortest.PlaceOthers | QBase/LuaCJson/dtoa.c:4201-4274 | no other number of that length lies there unless one of these two does and is as near |
| Shortest.Compare | QBase/LuaCJson/dtoa.c:4206-4208 | the two comparisons of the loop, with the one case in which `cmp` is wrong about zeros |
| Shortest.Decide | QBase/LuaCJson/dtoa.c:4210-4274 | stops if and only if one of the two lies between the half-gaps, and takes the nearer if both do; of two that are equally near the even one, except that at the upper end itself the lower one is kept unless it is a nine |
| Shortest.PlaceTie | QBase/LuaCJson/dtoa.c:4210-4257 | so among all numbers of that length ties are decided in that way |
| Shortest.ShortestDigits | QBase/LuaCJson/dtoa.c:4201-4287 | the digits lie between the half-gaps, no fewer digits do, and no number with as many digits does and is nearer (unless it is ten in the first place), and ties are decided as `PlaceTie` says; if a limit comes first, no digits within it do and the number is rounded half to even; the loop ends inside of the buffer |
| Shortest.ConvertShortest | QBase/LuaCJson/dtoa.c:4165-4287 | the same from an estimate of k that may be one too large, and with the lower gap halved at a power of two |
| Shortest.DoubleRoom | QBase/LuaCJson/dtoa.c:3883-3889 | 18 characters are enough for any double |
| QuotedPrintable.EncodeKeeps | QBase/LuaSocket/mime.c:398-436 | no byte is lost or changed by `qpencode`, whatever is pending |
| QuotedPrintable.EncodedMeans | QBase/LuaSocket/mime.c:398-450 | the encoded text of any input stands for that input, `qppad` included |
| QuotedPrintable.ChunksEncode | QBase/LuaSocket/mime.c:452-498 | cutting up the input and feeding leftovers again changes nothing |
| QuotedPrintable.BlanksQuoted | QBase/LuaSocket/mime.c:347-359 | no line of encoded text, and not the whole, ends in a blank that stands as it is |
| Mime.WrapTexts | QBase/LuaSocket/mime.c:582-629 | wrapping never splits an =XX and keeps the meaning, for lines of four bytes or more |
| Mime.WrapFits | QBase/LuaSocket/mime.c:573-581 | no line is longer than `length` |
| Mime.WrapLate | QBase/LuaSocket/mime.c:597-629 | a line is broken only where what comes next and the = of another soft break would have been too much for it |
| Mime.WrapEndExact | QBase/LuaSocket/mime.c:590-596 | at the end of input there is a soft break if and only if the last line is not empty |
| Mime.NarrowBreaks | QBase/LuaSocket/mime.c:603-620 | with lines of three bytes or fewer an escape does not survive |
| Mime.DecodeTexts | QBase/LuaSocket/mime.c:503-528 | decoding any text made of literals, escapes and breaks gives its meaning |
| Mime.ChunksDecode | QBase/LuaSocket/mime.c:530-572 | cutting up the text and feeding leftovers again changes nothing |
| Mime.Pipeline | QBase/LuaSocket/mime.c:398-629 | encode, wrap, decode, each in any chunks: the input comes back, nothing stays pending, all lines fit |
| QpTexts.DecodesExactly | QBase/LuaSocket/mime.c:503-528 | the decoder gives a text and leaves a rest over if and only if the input consists of pieces that mean this text and of an unfinished one: escapes with digits of either case; escapes without two digits, which stay as they are; soft breaks; line breaks; carriage returns that take the next byte with them; and single bytes, of which control and 8-bit ones are dropped |
| QpTexts.EncodedReference | QBase/LuaSocket/mime.c:347-450 | encoding any input leaves line breaks, printable bytes, and blanks with two bytes behind them that are no line break, and escapes all others; where the input ends too soon to tell, a soft break follows |
| QpTexts.EscapeText | QBase/LuaSocket/mime.c:387-392 | escapes are written with capital digits |
| QpTexts.WrappedLate | QBase/LuaSocket/mime.c:597-629 | so encoded text of any input is broken as late as that |
| Mime.QpEncode | QBase/LuaSocket/mime.c:398-436 | the loop on the three-byte buffer does what the machine does |
| Mime.QpPad | QBase/LuaSocket/mime.c:441-450 | what is pending is written, and a soft break if there was anything |
| Mime.Qp | QBase/LuaSocket/mime.c:460-498 | the encoded prefix and the bytes left over, or the end of the text, or nil where there is none |
| Mime.QpDecode | QBase/LuaSocket/mime.c:503-528 | one byte of the decoder on its buffer |
| Mime.Unqp | QBase/LuaSocket/mime.c:537-572 | the decoded prefix and the bytes left over; at the end of input the text, or nil exactly where it is empty or begins with a zero byte |
| Mime.ZeroLost | QBase/LuaSocket/mime.c:558-562 | every text that starts with =00 decodes to bytes that are then answered by nil |
| Mime.PendingAnswered | QBase/LuaSocket/mime.c:530-572 | what earlier calls leave over decodes to nothing, so that this loses nothing in chunks |
| Mime.Qpwrp | QBase/LuaSocket/mime.c:582-629 | the wrapped text and the room left on the last line; at the end of input a soft break, or nil at the start of a line |
| JsonTexts.DecodesExactly | QBase/LuaCJson/lua_cjson.c:893-1299 | a text is decoded to a value if and only if it is a document that means this value and is nested within decode_max_depth: white space of any of the four kinds around every part, characters as they are, as short escapes, units or pairs with digits of either case, numbers as the codec reads them, brackets with anything or nothing inside |
| JsonTexts.ParseDoc | QBase/LuaCJson/lua_cjson.c:1143-1259 | every document, wherever it stands, is parsed to what it means, or to an error if it is nested too deep, up to its end |
| JsonTexts.LastCounts | QBase/LuaCJson/lua_cjson.c:1143-1192 | of repeated keys the last one counts, and every key is in the table once |
| JsonTexts.CharsFound | QBase/LuaCJson/lua_cjson.c:893-949 | whatever is read as a string is made of such characters |
| JsonPrinted.PrintedDoc | QBase/LuaCJson/lua_cjson.c:471-709 | printed text is a document without white space that means what was printed; a byte is printed by its short escape if it has one, a control character as a unit, and any other byte as itself |
| JsonPrinted.ScanBytes | QBase/LuaCJson/lua_cjson.c:893-949 | scanning the escaped bytes of any string gives the string back |
| JsonPrinted.ParsePrinted | QBase/LuaCJson/lua_cjson.c:1143-1259 | parsing a printed value inside any text gives the value, or an error if it is nested too deep, and stops right behind it |
| JsonPrinted.RoundTrip | QBase/LuaCJson/lua_cjson.c:1261-1299 | decoding the printed text of a value succeeds if and only if it is nested within decode_max_depth, and gives that value |
| JsonNumbers.DecimalFaithful | QBase/LuaCJson/lua_cjson.c:596-624 | what the round trip asks of reading and writing numbers is met by whole numbers in decimal |
| Json.Utf8Means | QBase/LuaCJson/lua_cjson.c:783-815 | `codepoint_to_utf8` writes the shortest UTF-8 encoding of every code point |
| Json.EscapeMeans | QBase/LuaCJson/lua_cjson.c:827-881 | the escape of every scalar value, one unit or a surrogate pair, is decoded to its UTF-8 encoding |
| Json.EscapeIsScalar | QBase/LuaCJson/lua_cjson.c:827-881 | nothing else is decoded; a lone surrogate is an error |
| JsonCode.StrBuf.constructor | QBase/LuaCJson/strbuf.c:48-71 | an empty buffer with room for the length asked for |
| JsonCode.StrBuf.EnsureRoom | QBase/LuaCJson/strbuf.c:138-184 | afterwards there is room, and the contents are the same |
| JsonCode.StrBuf.AppendCharUnsafe | QBase/LuaCJson/strbuf.h:124-127 | appends one byte where the caller has made room |
| JsonCode.StrBuf.AppendMemUnsafe | QBase/LuaCJson/strbuf.h:136-140 | appends bytes where the caller has made room |
| JsonCode.StrBuf.AppendString | QBase/LuaCJson/strbuf.c:186-203 | appends bytes and grows by need |
| JsonCode.AppendString | QBase/LuaCJson/lua_cjson.c:471-495 | writes the escaped string; room for six times the length and two is enough for all its unchecked appends |
| JsonCode.AppendArray | QBase/LuaCJson/lua_cjson.c:574-595 | writes the items with commas |
| JsonCode.AppendObject | QBase/LuaCJson/lua_cjson.c:626-665 | writes the fields with commas and colons |
| JsonCode.AppendData | QBase/LuaCJson/lua_cjson.c:668-709 | writes the value; fails if and only if it is nested deeper than encode_max_depth |
| JsonCode.Parser.AppendUnicodeEscape | QBase/LuaCJson/lua_cjson.c:827-881 | reads no byte behind the end of the text and writes none outside of the buffer |
| JsonCode.Parser.NextStringToken | QBase/LuaCJson/lua_cjson.c:893-949 | the loop with its unchecked appends, which stay inside a buffer as large as the text |
| JsonCode.Parser.NextToken | QBase/LuaCJson/lua_cjson.c:1022-1094 | the next token, with the pointer behind it |
| JsonCode.Parser.ProcessValue | QBase/LuaCJson/lua_cjson.c:1232-1259 | the value, with the pointer behind it and the depth as before |
| JsonCode.DecodeText | QBase/LuaCJson/lua_cjson.c:1261-1299 | the whole decoder |
| JsonCode.EncodeDecode | QBase/LuaCJson/lua_cjson.c:668-709 | encoding and decoding again gives the value back if and only if neither finds it nested too deep |
| Framing.FrameExact | QBase/TcpParser.cpp:20-144 | the head of every length is read back, whatever follows; a frame gives its message if and only if both together are shorter than 2^32 bytes |
| Framing.HeadBytes | QBase/TcpParser.cpp:117-144 | the bytes of a head by the length it stands for: one up to 125; 126 and two bytes, high byte first, up to 65535; else 127 and four |
| Framing.HeadShortest | QBase/TcpParser.cpp:20-144 | no shorter head announces the same length, if and only if it is none of the last 128, which a single character from 128 on is taken for |
| Framing.FrameIncomplete | QBase/TcpParser.cpp:77-115 | nothing is taken out of a frame that is not complete |
| Framing.DrainMore | TestTool/Worker.cpp:149-178 | how bytes are cut up on the way does not matter to the loop |
| Framing.AllDelivered | TestTool/Worker.cpp:149-178 | any list of messages, sent as frames and delivered in any chunks, comes out in order and in full, and of a further incomplete frame nothing is taken |
| Framing.TcpParser.CreateHead | QBase/TcpParser.cpp:117-144 | one, three or five bytes with the length, high byte first |
| Framing.TcpParser.ParseHead | QBase/TcpParser.cpp:20-75 | the length and the size of the head, if it is there, with the sign of characters |
| Framing.TcpParser.ParsePack | QBase/TcpParser.cpp:77-115 | the message and how much to delete for it, nothing if it is incomplete, or a length that does not fit |
| Framing.TcpParser.OnRead | TestTool/Worker.cpp:149-178 | the loop takes out all complete messages and leaves the rest |
| Framing.Connection | TestTool/Worker.cpp:149-178 | the deliveries of a whole connection |
| Streams.CountStep | QBase/SHA1.cpp:118-123 | the two words hold the 64-bit bit count, with the carry found by comparison |
| Streams.BufferIndex | QBase/SHA1.cpp:118-118 | the low word gives the position in the buffer |
| Streams.TestExact | QBase/SHA1.cpp:126-126 | the comparison of `j + uLen` with 63 is right if and only if j + uLen is below 2^32 |
| Streams.LoopExact | QBase/md5.cpp:191-193 | the loop's test is right at every position it can come to if and only if the same holds |
| Streams.Stream.Update | QBase/SHA1.cpp:116-141 | after an update the stream holds the longer message: state of all whole blocks, rest in the buffer, bit count; it goes out of bounds if and only if the bytes in the buffer and the new ones are together 2^32 or more |
| Digests.Feed | QBase/SHA1.cpp:116-141 | any way of cutting up a message gives the same stream, if and only if no chunk is too long |
| Digests.Sha1Final | QBase/SHA1.cpp:175-203 | the 20 bytes, high byte first, of the digest of the message padded with a one bit, zeros and its length |
| Digests.Md5Final | QBase/md5.cpp:207-235 | the bytes, low byte first, of the digest of the padded message; the stream still holds the message if and only if the padding did not touch the pending bytes or left the same bytes there |
| Digests.Sha1Hash | QBase/SHA1.cpp:62-203 | reset, updates and final on any chunks: the digest of RFC 3174, with the initial words by their bytes, if and only if no chunk is too long |
| Sha1.Rotations | QBase/SHA1.cpp:16-23 | ROL32 by 1, 5 and 30 places is x * 2^k + x / 2^(32 - k) modulo 2^32 |
| Sha1.SwapBytes | QBase/SHA1.cpp:25-30 | SHABLK0 makes the number that four bytes stand for, high byte first, out of the word that a little-endian machine loads |
| Rfc3174.Roots | QBase/SHA1.cpp:36-40 | the constants of the rounds are the square roots of 2, 3, 5 and 10, times 2^30 |
| Rfc3174.InitialIs | QBase/SHA1.cpp:62-70 | the initial words are those whose bytes count up by 0x22, down by 0x22, and down by 0x0F |
| Sha1Example.Example | QBase/SHA1.cpp:75-203 | the digest of "abc" is a9993e36 4706816a ba3e2571 7850c26c 9cd0d89d, the first example of section 7.3 of RFC 3174 |
| Sha1.CircleStep | QBase/SHA1.cpp:25-33 | the 16 words in a circle, swapped on first use and mixed by XOR and rotation, hold the last words of the 80-word schedule of RFC 3174 |
| Sha1.SameF | QBase/SHA1.cpp:35-40 | the round functions of the macros are those of RFC 3174 |
| Sha1.RoleStep | QBase/SHA1.cpp:35-40 | a macro call with rotated names is a round with shifted registers |
| Sha1.Transform | QBase/SHA1.cpp:75-114 | 80 macro calls compute the compression of section 6.1 of RFC 3174 |

## Left out

- Match-time captures (`TRunTime`, `runtimecap`) and function, fold, query, table, string, argument, numbered and back-reference captures: they call Lua code or build Lua tables.
- The Lua API: ktables, userdata, errors as long jumps. Keys are numbers and errors are results.
- The limit MAXBACK on the stack, memory errors, and the C widths of sizes, offsets and counts of nodes (the width of rule numbers is modelled).
- `lp_seq`, `lp_choice` and `lp_sub` as array code: one root and two copies, what is modelled is what they build.
- Compile.PatternCorrect: for the source as it stands `OptSafe` (in `Clear`) is necessary for the program to be the intended one, but not for it to be right, because whether the body of a loop can fail where it would matter is a question about the language of an arbitrary pattern; the exact condition is proved for the family in `Defect`.
- Library.MatchPattern: start positions are inside the subject, as `initposition` makes them.
- Totality.AcceptedTotal: as for Compile.PatternTotal.
- Totality.GrammarTotal: as for Compile.PatternTotal.
- Compile.PatternTotal: with a rule inside of a look-behind matching may or may not have an answer; which, is a question about the language of an arbitrary pattern, so the condition is sufficient only.
- Library.MatchValues: patterns with the capture kinds of the first line.
- Captures.CapState.AddOneString: the error for a value that is no string.
- Captures.CapState.PushCapture: the capture kinds of the first line.
- Captures.CapState.GetCaptures: lists with the capture kinds of the first line.
- TreeArrays.NewGrammar: the call of `verifygrammar` at its end, which `Grammars` models on trees.
- TreeArrays.StarTree: the answer of `nullable` is a parameter, since open calls count as not nullable while a pattern is being built.
- BigInts.LShift: a zero shifted by a word or more keeps leading zero words; the value is still right.
- Decimals.Convert: the case of no digits, which is `FewDigits`, and the shortest digits, which are `Shortest`; the floating-point fast paths, rounding modes and the computation of the estimate of k.
- Shortest.ConvertShortest: the numbers that it starts from, which are computed from the bits of the double.
- Powers.Pow5Mult: the cache is a sequence of nodes instead of a linked list; locking for several threads.
- `strtod`, hexadecimal floats and the other floating-point parts of `dtoa.c`.
- JsonPrinted.RoundTrip: numbers are read and written by a codec that is a parameter (`Faithful` says what is asked of it, and decimals have it); objects are lists of fields in traversal order with different keys; `decode_invalid_numbers` has its default value.
- JsonCode.AppendObject: keys that are numbers, and the settings for sparse arrays.
- Linear growth of `strbuf`, and `int` overflow of buffer sizes.
- Digests.Md5Final: the compression function of MD5 is a parameter; its table of 64 steps is not modelled.
- Streams.Stream.Update: input of 2^32 bytes or more in one call, which a 64-bit `size_t` would allow for MD5; what happens out of bounds.
- Framing.TcpParser.CreateHead: with a `size_t` of eight bytes it writes nine bytes into a head of five; the model has 32 bits on both sides. Decryption of messages and the queue of the event library, which is a byte queue here.
- Base64, end-of-line and dot-stuffing filters: easier than what is here.
- Sockets, SQLite, logging, encryption wrappers and other glue.
