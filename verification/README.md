# Verified model of the OpenBMC test automation library

A Dafny model of the algorithmic core of `lib/`: the timer and signal protocol behind timed function calls, Redfish
enumeration, the text scanners (password masking, argument splitting, command lines, HTX logs), integer printing, the
same-network test, and the polling and SSH retry loops. `dafny verify dfyconfig.toml` checks everything.

| file | what it models |
|---|---|
| FuncTimer.dfy | `func_timer_class` as a transition system: parent, timer children, SIGUSR1 delivered anywhere, nested clean-ups, any number of runs |
| FuncTimerObject.dfy | the same class as an object with fields; its undisturbed run is an execution of that system |
| Redfish.dfy | `enumerate` and `enumerate_request` as one object with a pending set and a result that grow in place |
| PasswordMask.dfy | `register_passwords` and `replace_passwords`, with the regular expression as text |
| CommandString.dfy | `quote_bash_parm` and `create_command_string`, against a shell's word splitting |
| CommandParse.dfy | the token loop of `parse_command_string` |
| ArgSplitter.dfy | the character loop of `get_arg_name` |
| HtxLog.dfy | `htx_error_log_to_list` and `build_error_dict` |
| HexPrint.dfy | `bit_length`, `get_req_num_hex_digits`, the hexa branch of `sprint_varx`, `to_signed` |
| Network.dfy | `are_in_same_network` and the choice of prefix |
| Polling.dfy | `wait_for_activation_state_change` and the loop of `verify_image_upload` |
| SshRetry.dfy | `find_connection`, `login_ssh` and `execute_ssh_command` |
| Options.dfy | the optional value |

## Assumptions

* Timer: only the timer children send SIGUSR1; pids are not reused; `run` is not re-entered; exceptions are
  subclasses of `Exception`, and a handler that raises does not raise an `OSError`; Python ignores a pending signal whose
  handler has become SIG_DFL or SIG_IGN. A pending handler may run before any statement, also right after the child
  was reaped. The two further assumptions, no delivery between fork and store and no run left while a signal is
  unhandled (which is what running pending handlers between statements comes to), are parameters (`Environment`), and the
  theorems say exactly what each is needed for. Another timer object's `timed_out` is a `User` handler that raises.
* Redfish: the server is a fixed map from URI to status and body, and the reachable URIs lie in a finite set. A
  `Members` id that is not a string raises at once; in the source it raises when its round comes. The keys of a dictionary
  are kept in iteration order.
* Masking: `re.sub` replaces the leftmost match of the first matching alternative and resumes after it.
* Shell: sections 2.2.1 to 2.2.3 and 2.3 of the POSIX Shell Command Language. A line with an unquoted operator,
  expansion, pattern, brace, line break or comment has no words in this model.
* Polling, SSH: the outcomes of reads, opens, logins and executions are arbitrary streams.

## Where code and documentation disagree

The model follows the code.

* `register_passwords` says blank values are ignored; the loop stops at them (`PasswordMask.AllRegisteredExactly`).
* `build_error_dict` shows full time stamps in its sample output; the second separator cuts them (`HtxLog.TimeStampIsCut`).
* `verify_image_upload` says failed reads do not use up the state checks; they do (`Polling.BudgetExactly`).
* `htx_error_log_to_list` says empty lines are not added; they are (`HtxLog.EmptyLinesExactly`).
* `cleanup` takes a pid other than 0 for a child still to be cleaned up; between `waitpid` and the reset of the pid it can
  kill a pid already waited for (`FuncTimer.NeverKillsReapedExactly`).
* `execute_ssh_command` asks for a 'host' argument only; without 'alias' nothing is executed unless it is forked, and the
  call ends in an exception (`SshRetry.SshLibrary.ExecuteSshCommand`).

## Model

| member | source | states |
|---|---|---|
| `FuncTimer.StepKeepsInv` | lib/func_timer.py:75-133 | Every step of the parent, of its child, of a signal delivery at any point, or of a disciplined caller keeps the protocol invariant: at most the current run's child is unreaped and its pid is the one recorded |
| `FuncTimer.CleanOutsideRun` | lib/func_timer.py:90-108 | Over every interleaving and any number of runs, whenever the parent is outside `run` no child pid is recorded and every child was waited for; SIGUSR1 never kills the parent, which is what not restoring SIG_DFL achieves |
| `FuncTimer.KillsOnlyOwnChild` | lib/func_timer.py:98-102 | A SIGKILL can only go to the pid that the current run's child got, never to pid 0 or the pid of another run's child, although nested clean-ups reset the pid; that child may have been reaped already |
| `FuncTimer.KillsOnlyUnreaped` | lib/func_timer.py:95-108 | With no delivery between fork and store and no run left while a signal is unhandled: over any number of runs, a run that found a handler other than SIG_DFL or `timed_out` never sends SIGKILL to a pid already waited for |
| `FuncTimer.ReapedChildKilled` | lib/func_timer.py:104-108 | From SIG_DFL or a `timed_out` left by an earlier run, a signal handled between `waitpid` and the reset of the pid makes the nested `cleanup` kill a pid already waited for: a concrete execution |
| `FuncTimer.NeverKillsReapedExactly` | lib/func_timer.py:95-108 | Under the same assumptions no interleaving of a run kills a pid already waited for exactly when the handler it leaves in force is not `timed_out` |
| `FuncTimer.CleanExactly` | lib/func_timer.py:193-237 | One run leaves nothing behind under every interleaving exactly when it is untimed, or no signal is handled between fork and store, the function has a `__name__`, and the handler found at entry does not raise |
| `FuncTimer.LeakInWindow` | lib/func_timer.py:199-200 | A signal handled between the fork and the store of its result finds pid 0: the child is never reaped |
| `FuncTimer.LeakUnnamed` | lib/func_timer.py:223-225 | Announcing a function without a `__name__` raises outside the `try`, so `cleanup` is skipped and the child keeps running |
| `FuncTimer.LeakRaisingHandler` | lib/func_timer.py:96-108 | A restored handler that raises abandons `cleanup` between the restoration and the kill |
| `FuncTimer.StepDescends` | lib/func_timer.py:75-133 | Every step but the caller's decreases a measure, signal deliveries and nested clean-ups included |
| `FuncTimer.RunsAreBounded` | lib/func_timer.py:135-237 | A run, with all that its child and its handlers do, takes a bounded number of steps |
| `FuncTimer.NeverStuck` | lib/func_timer.py:103-107 | There is no deadlock: also while the parent waits for its child, a step is possible until the run has left |
| `FuncTimer.EveryRunLeavesCleanly` | lib/func_timer.py:225-237 | An execution that can go no further has left its run and left nothing behind |
| `FuncTimer.TimeOutEndsRun` | lib/func_timer.py:113-133 | In every execution, once `timed_out` has been entered at any statement but the call of the function, the function of a named run is never called, and whenever no handler is active the run has been left |
| `FuncTimer.TimeOutStrikesFunction` | lib/func_timer.py:225-233 | In every execution, a time-out handled during the call of the function is an exception raised inside it, and the function is not called again |
| `FuncTimer.StruckFunctionHasNoTimer` | lib/func_timer.py:113-133 | A function that handles that exception goes on without a timer: its child has been reaped |
| `FuncTimer.FunctionIsCalled` | lib/func_timer.py:225-226 | A run of a named function in which no signal is handled calls the function on its way out |
| `FuncTimer.WaitsOnlyForKilled` | lib/func_timer.py:98-107 | `waitpid` is only entered when the child has been killed or is dead |
| `FuncTimer.TimeOutIsOwn` | lib/func_timer.py:113-133 | If no run is left while a signal is unhandled, a signal can only be handled during the run whose own child sent it, never during another run and never inside another handler |
| `FuncTimer.HandlerAtExit` | lib/func_timer.py:95-97 | If no run is left while a signal is unhandled: at the step that leaves a run the handler found at entry is in force again; only from SIG_DFL does a forked run leave `timed_out` in its place, which later runs preserve |
| `FuncTimer.StrayTimeOut` | lib/func_timer.py:195-197 | When a run is left while its child's signal is unhandled, a later run, not yet forked, is told that it timed out: a concrete execution |
| `FuncTimer.OwnTimeOutsExactly` | lib/func_timer.py:113-133 | Every signal that could be handled is the current run's own, in every execution an environment allows, exactly when it lets no run be left while a signal is unhandled |
| `FuncTimer.TimeOutsAreOwnExactly` | lib/func_timer.py:75-133 | The same for each single execution, whatever is assumed of delivery: wherever a signal could be handled it belongs to the run in progress, exactly when none of its runs is left while a signal is unhandled |
| `FuncTimerObject.FuncTimerClass.Cleanup` | lib/func_timer.py:75-111 | The fields after `cleanup`: handler restored unless SIG_DFL was saved, child reaped, pid 0; and its statements carry the execution of the protocol on from where it stood |
| `FuncTimerObject.FuncTimerClass.Run` | lib/func_timer.py:135-237 | An undisturbed `run` carries the execution of the protocol on by the beginning of a run and by steps of that run alone, reaps its child and puts the handler back, whether the function returns or raises |
| `Redfish.ReachedSetIsLeast` | lib/bmc_redfish.py:240-283 | The URIs reachable by chains of links are exactly the least set that holds the start and is closed under the links of live resources |
| `Redfish.WalkFindsExactly` | lib/bmc_redfish.py:317-338 | The walk finds exactly the URIs named anywhere in the nested dictionaries, entering lists only for the direct members of a collection, and raises an exception exactly when some entry there cannot be read |
| `Redfish.WalkWritesExactly` | lib/bmc_redfish.py:331-335 | The walk writes exactly under the ids that dictionaries carry as their own, each with such a dictionary: the walked data under the walked URL, a nested dictionary under the empty string |
| `Redfish.StripSlashesExactly` | lib/bmc_redfish.py:317 | Stripping removes all slashes at the end and nothing else |
| `Redfish.LookupIsLast` | lib/bmc_redfish.py:328 | A key given several times in a dictionary means its last value |
| `Redfish.MemberUriExactly` | lib/bmc_redfish_utils.py:385-398 | Which URI a `Members` entry names: the id of a dictionary; for `enumerate_request` also a bare string or the second item of a list |
| `Redfish.SkippedExactly` | lib/bmc_redfish_utils.py:303-311 | A URI is skipped exactly when one of the three words, or for `enumerate_request` six, stands in it at any position |
| `Redfish.StatusDecides` | lib/bmc_redfish_utils.py:313-339 | What becomes of a resource, by its URI and status alone: walked at 200, dead at 404 or 500, for `enumerate_request` also 405, and an exception at any other status or an unreadable body |
| `Redfish.Enumerator.WalkNestedDict` | lib/bmc_redfish.py:309-338 | One walk adds exactly the links and result entries found in the nested data, and fails exactly where the source raises an exception |
| `Redfish.Enumerator.AddMembers` | lib/bmc_redfish_utils.py:385-398 | The ids of the `Members` entries join the pending set unstripped; each program fails on the entries it cannot read |
| `Redfish.Enumerator.VisitResource` | lib/bmc_redfish_utils.py:303-339 | A visit skips, records a dead resource under its status, or walks the body, and raises on a status that is not accepted |
| `Redfish.Enumerator.VisitRound` | lib/bmc_redfish.py:249-278 | A round visits its URIs in any order and adds only links of the URIs visited in it |
| `Redfish.Enumerator.Run` | lib/bmc_redfish.py:240-283 | The enumeration terminates on a finite universe; it raises an exception exactly when some reachable URI is fatal; otherwise it issues one GET for each reachable URI in which none of the words stands that are left out, round after round, and the result and dead lists are those of these GETs in order |
| `Redfish.OrderIndependent` | lib/bmc_redfish.py:281-283 | In any order at all, even across rounds, the result map is the same and each dead list is the same as a multiset, if no two resources write different data under one key |
| `Redfish.OrderIndependentExactly` | lib/bmc_redfish.py:249-283 | All orders in which the rounds may visit their URIs leave one result exactly when, for every key, the resources of the last round that writes it write the same data |
| `Redfish.UnambiguousIsCompatible` | lib/bmc_redfish.py:331-338 | No two resources do so when no two reached URIs differ only in trailing slashes and no nested id strips to the empty string |
| `Redfish.OrderMattersForSlashTwins` | lib/bmc_redfish.py:317-335 | For a collection with `/a` and `/a/` as members, both visited in one round, the body visited last is kept |
| `Redfish.DeadAfterIsExact` | lib/bmc_redfish_utils.py:327-337 | The list of a status holds exactly the dead resources with that status, each once |
| `Redfish.DeadListIsInOrder` | lib/bmc_redfish_utils.py:327-337 | Each list keeps the order of the visits |
| `Redfish.EveryReachedUriIsAccountedFor` | lib/bmc_redfish_utils.py:297-339 | Every reached URI is exactly one of skipped, walked, or listed under its own status and no other |
| `Redfish.ResultIsExact` | lib/bmc_redfish.py:331-335 | If no two reached URIs differ only in trailing slashes and no nested id strips to the empty string, the result holds exactly the live resources whose body carries their own id, each under its stripped URI with its own body |
| `Redfish.WalksAgree` | lib/bmc_redfish_utils.py:379-407 | Where the walk of bmc_redfish.py raises no exception, the walk of bmc_redfish_utils.py finds the same links and entries |
| `Redfish.RequestReachesNoFurther` | lib/bmc_redfish_utils.py:303-320 | If `enumerate` returns normally so does `enumerate_request` from the same start, and it reaches no further |
| `Redfish.RequestIsSubMap` | lib/bmc_redfish_utils.py:296-344 | If moreover no two resources write different data under one key, the result of `enumerate_request` is a sub-map of that of `enumerate`, in whatever orders the two visit their resources |
| `Redfish.RequestIsSubMapExactly` | lib/bmc_redfish_utils.py:296-344 | If `enumerate` returns normally, the result of `enumerate_request` is a sub-map of its result, whatever orders the rounds of both take, exactly when for every key the resources of the last round that writes it under the one program and under the other write the same data |
| `Redfish.TwinsAreNoSubMap` | lib/bmc_redfish_utils.py:400-404 | For a collection with `/a` and `/a/` as members, visited in opposite orders, it is not a sub-map |
| `PasswordMask.RegexIsAlternation` | lib/gen_print.py:1953-1956 | Whatever characters the passwords hold, the regular expression text reads back as their plain alternation in order of registration |
| `PasswordMask.ScanKeepsTheText` | lib/gen_print.py:1977 | Only registered passwords are replaced; all other text stays in place and in order |
| `PasswordMask.ScanIsLeftmostFirst` | lib/gen_print.py:1977 | At every point a character is kept exactly when no password begins there; otherwise the first registered one that does is replaced |
| `PasswordMask.MaskIsLeftmostFirst` | lib/gen_print.py:1977 | The output, step by step: eight asterisks for the first registered password with which the text begins, and otherwise one character kept |
| `PasswordMask.OccurrenceMeetsMask` | lib/gen_print.py:1977 | For all passwords: wherever one can be read in the output, part of it is a mask |
| `PasswordMask.MaskIsSound` | lib/gen_print.py:1959-1977 | The output contains no registered password that neither begins nor ends with an asterisk nor holds a whole mask, even when passwords overlap or are prefixes of each other |
| `PasswordMask.MaskHidesExactly` | lib/gen_print.py:1959-1977 | A password is hidden in every text, whatever else is registered, exactly when it neither begins nor ends with an asterisk nor holds a whole mask |
| `PasswordMask.StarPasswordLeaks` | lib/gen_print.py:1977 | The password "*" can be read in the output |
| `PasswordMask.MaskIsIdempotent` | lib/gen_print.py:1977 | Masking masked text changes nothing, if no password but the mask itself can blend in with the masks in that way |
| `PasswordMask.MaskIsIdempotentExactly` | lib/gen_print.py:1977 | Beside passwords that cannot blend in, one leaves a second masking without effect on every text exactly when it cannot blend in either or is itself the mask |
| `PasswordMask.AllRegisteredExactly` | lib/gen_print.py:1930-1956 | Every non-blank argument ends up registered, as documented, exactly when the new ones come before all blank or known ones, because the loop stops there |
| `PasswordMask.BlankArgumentStopsRegistration` | lib/gen_print.py:1946-1949 | A blank argument makes the loop drop the password after it |
| `PasswordMask.RegisteredTakesFreshPrefix` | lib/gen_print.py:1945-1952 | What is registered is the longest prefix of new arguments, in order |
| `PasswordMask.Masker.RegisterPasswords` | lib/gen_print.py:1942-1956 | Every call keeps the list free of blanks and duplicates and the regular expression in step with it |
| `PasswordMask.Masker.ReplacePasswords` | lib/gen_print.py:1968-1977 | The buffer is masked by the passwords read back from the regular expression, or returned as it is in the debug setting |
| `CommandString.WordsJoin` | lib/gen_cmd.py:762-772 | In the shell's word splitting, a space after a line that has words starts afresh |
| `CommandString.FeedQuoted` | lib/gen_misc.py:408 | Single-quoted text with its quotes escaped is taken literally, wherever in a word it stands |
| `CommandString.QuoteExactly` | lib/gen_misc.py:430-438 | The shell gives a quoted parameter back as one unchanged word exactly when it holds a special character, or holds none of those the list misses and begins no comment |
| `CommandString.QuoteInsideWordExactly` | lib/gen_misc.py:430-438 | The same inside a word, as after `--name=` |
| `CommandString.QuoteParmExactly` | lib/gen_misc.py:430-438 | A parameter is left as it is exactly when it is not empty and holds none of the listed characters |
| `CommandString.EscapeQuotesReplaces` | lib/gen_misc.py:408 | Each single quote becomes a quote, a backslash and two quotes |
| `CommandString.AlreadyQuotedExactly` | lib/gen_cmd.py:764 | Which values count as quoted by the caller: those between two equal quotes, without a line break between them |
| `CommandString.CallerQuotesAreHonoured` | lib/gen_cmd.py:764-766 | A value that the caller put in single quotes is read from between them |
| `CommandString.OptionExactly` | lib/gen_cmd.py:762-769 | One option: the shell reads back dashes, name and value exactly when the value is literal, that is, not quoted by the caller and well served by the quoting |
| `CommandString.CommandGivenBack` | lib/gen_cmd.py:733-772 | The shell splits the command string into the words of the command, then each option's words under the dashes and delimiter then in force, then those of the non-blank positional parameters |
| `CommandString.CommandReadsBack` | lib/gen_cmd.py:733-772 | The same by what the options say before: the shell reads each name after the dashes that the last "arg_dashes" gave, and its value joined by the last delimiter, given or implied, or in a word of its own |
| `CommandString.DashesDecide` | lib/gen_cmd.py:611-614 | After two dashes, and no setting since, name and value are one word with an equals sign between them; after any other dashes they are two words |
| `CommandString.CommandTextIsJoin` | lib/gen_cmd.py:770-772 | The text is the command, the options and the non-blank positional parameters, one space between each |
| `CommandString.CreateCommandString` | lib/gen_cmd.py:733-774 | The loop builds that text, changing dashes and delimiter as it goes, and the shell reads the words just named |
| `CommandParse.ParseTokens` | lib/gen_cmd.py:225-250 | The token loop yields the dictionary of the pairs the tokens stand for, and fails exactly where unpacking a long parameter does |
| `CommandParse.CollectKeepsAllValues` | lib/gen_cmd.py:242-247 | Each name maps to exactly its values in order of occurrence, bare if one and a list if several; names keep the order of first occurrence |
| `CommandParse.ItemReadsExactly` | lib/gen_cmd.py:229-241 | A rendered parameter reads back as itself exactly when it follows the conventions: one "=" in a long one, no leading dash in a name or positional value |
| `CommandParse.TrailingShortReads` | lib/gen_cmd.py:232-237 | A short parameter at the very end has the empty value |
| `CommandParse.LongFailsExactly` | lib/gen_cmd.py:229-230 | A token with two dashes makes the parsing fail exactly when it has no equals sign or more than one, or the rest fails |
| `CommandParse.RenderedParses` | lib/gen_cmd.py:223-250 | Parsing a rendered command line loses no value and invents none |
| `CommandParse.CommandEntryExactly` | lib/gen_cmd.py:227 | The command keeps its own entry exactly when no parameter is named like it |
| `ArgSplitter.SplitArgs` | lib/gen_print.py:443-471 | The loop never indexes out of range and computes the stripped pieces |
| `ArgSplitter.IsSpaceExactly` | lib/gen_print.py:471 | The blanks that stripping removes are the white space of the Unicode standard and the four separators of ASCII |
| `ArgSplitter.SplitUndoesJoin` | lib/gen_print.py:443-471 | Splitting "(" + ", "-joined arguments + ")" + any tail gives the arguments back, if each is trimmed and balanced with no comma outside parentheses |
| `ArgSplitter.SplitIsGood` | lib/gen_print.py:451-471 | Whatever a closed call is split into, each piece is trimmed and balanced with no comma outside parentheses |
| `ArgSplitter.SplitUndoesJoinExactly` | lib/gen_print.py:443-471 | The arguments come back for every tail exactly when all are trimmed and balanced with no comma outside parentheses |
| `ArgSplitter.QuotedCommaSplits` | lib/gen_print.py:460-465 | A comma inside a string literal is not an exception to that |
| `HtxLog.HtxErrorLogToList` | lib/os_utils_keywords.py:118-143 | The line loop collects the closed records |
| `HtxLog.RenderedParses` | lib/os_utils_keywords.py:124-143 | Parsing gives the records of a log back in order without their comments; stray lines and an unterminated record are dropped |
| `HtxLog.EveryLogIsRendered` | lib/os_utils_keywords.py:124-143 | Every list of lines is such a log, so the round trip covers every input |
| `HtxLog.ParsedExactly` | lib/os_utils_keywords.py:124-143 | A content line is in a parsed record exactly when it stands after an odd number of dash lines and before another one |
| `HtxLog.EmptyLinesExactly` | lib/os_utils_keywords.py:139-141 | No parsed record has an empty line, as the comment promises, exactly when no empty line stands inside a closed record |
| `HtxLog.EmptyLineIsAdded` | lib/os_utils_keywords.py:139-141 | An empty line between two dash lines is added |
| `HtxLog.BuildErrorDict` | lib/os_utils_keywords.py:188-215 | The nested loops build the numbered dictionaries, and fail exactly where a line without a separator raises |
| `HtxLog.RecordDictIsLastWins` | lib/os_utils_keywords.py:201-207 | A record becomes a dictionary exactly when every line has a separator; each first field maps to the second field of its last line |
| `HtxLog.RenderedRecord` | lib/os_utils_keywords.py:201-207 | A record of lines printed with colons and equals signs in any mixture becomes the dictionary of their names and values, the last line of a name winning |
| `HtxLog.RecordFailsExactly` | lib/os_utils_keywords.py:205-207 | A record fails exactly when one of its lines has neither a colon nor an equals sign |
| `HtxLog.RecordDictsAreNumbered` | lib/os_utils_keywords.py:209-213 | The keys are exactly 0 to n - 1, one for each record in order |
| `HtxLog.ValueIsWholeExactly` | lib/os_utils_keywords.py:205-207 | A value is all that follows the first separator exactly when there is no second one |
| `HtxLog.TimeStampIsCut` | lib/os_utils_keywords.py:158 | The time stamp of the sample output comes out as "Mar 29 19" |
| `HexPrint.BitLengthIsExact` | lib/gen_print.py:625-650 | `bit_length` is b exactly when the magnitude x satisfies 2**(b-1) <= x < 2**b |
| `HexPrint.RequiredHexDigitsIsLeast` | lib/gen_print.py:653-701 | The least positive multiple of eight digits whose two's complement range holds the number |
| `HexPrint.PrintedDigitsIsLeast` | lib/gen_print.py:1107-1109 | The number of digits printed is the least positive multiple of eight in which both the number and sys.maxsize fit |
| `HexPrint.ToSignedOnField` | lib/gen_misc.py:552-558 | On a field of w bits the result lies in the signed range, differs by 0 or 2**w, and is a fixed point |
| `HexPrint.ToSignedExactly` | lib/gen_misc.py:552-558 | On every number: negative ones stay, and 2**w is taken from another exactly when its remainder lies in the upper half of the field |
| `HexPrint.ToSignedRangeExactly` | lib/gen_misc.py:552-558 | The result lies in the signed range exactly when the argument is not beyond the field, since it is never reduced |
| `HexPrint.HexRoundTrip` | lib/gen_print.py:1107-1115 | Every integer is printed in exactly the chosen number of lower-case hexadecimal digits, and `to_signed` of those digits at that width gives it back |
| `HexPrint.DefaultRoundTrip` | lib/gen_misc.py:546-550 | With the default widths of both functions every number that fits is recovered |
| `Network.TransitiveExactly` | lib/network_utils.py:106-219 | On literal addresses the test is transitive exactly when no /24 near the system is split between private and other addresses while another /24 there holds a private one |
| `Network.SameNetwork4Exactly` | lib/network_utils.py:119-157 | Two IPv4 addresses are in one network exactly when both are loopback, both are private in the system's /16 but not its /24, or they share 24 bits |
| `Network.SameNetwork6Exactly` | lib/network_utils.py:143-151 | Two IPv6 addresses are in one network exactly when they are equal, or neither is ::1 and they share 64 bits; addresses of different versions never are |
| `Network.SharedNetworkSharesMask` | lib/network_utils.py:119-157 | Where no /24 is split, two addresses of one network always get the same prefix |
| `Network.RegistryBreaksTransitivity` | lib/network_utils.py:129-141 | The address registry does split 192.0.0.0/24: for a system at 192.0.1.5 the test is not transitive |
| `Network.SameNetworkIsReflexive` | lib/network_utils.py:192-219 | Every literal address is in its own network |
| `Network.SameNetworkIsSymmetric` | lib/network_utils.py:212-219 | The order of the hosts does not matter, although the prefix is chosen from both |
| `Polling.WaitForStateChange` | lib/code_update_utils.py:142-183 | On every stream of reads: ends after at most 180 reads with the stream's first verdict, having slept ten seconds after each unchanged read and thirty after each failed one but the last, at most 4200 in all; returns normally exactly when a different state comes before any other verdict |
| `Polling.VerifyImageUpload` | lib/code_update_utils.py:349-398 | Succeeds exactly when one of the first 2 * timeout reads is settled before six failures in a row, and stops reading at the first of either |
| `Polling.UploadedExactly` | lib/code_update_utils.py:351-390 | With the first settled read at index i, the upload is verified exactly when i < 2 * timeout, failed reads counting like others |
| `Polling.BudgetExactly` | lib/code_update_utils.py:303-310 | The documented budget, in which failed reads do not count, is honoured for every timeout exactly when the failures before the first settled read do not move it into a later minute, that is, a later pair of reads |
| `Polling.FailedReadUsesUpBudget` | lib/code_update_utils.py:346-352 | One failed read makes a one-minute wait miss a state settled at the second check |
| `SshRetry.OverrideChangesNothing` | lib/gen_robot_ssh.py:95-102 | The dictionary comparison holds exactly when the search arguments are a sub-map of the configuration |
| `SshRetry.FirstMatchIsFirst` | lib/gen_robot_ssh.py:93-104 | The connection chosen agrees with the arguments and none before it does; none is chosen exactly when none agrees |
| `SshRetry.SshLibrary.FindConnection` | lib/gen_robot_ssh.py:93-104 | The loop returns that connection |
| `SshRetry.SshLibrary.LoginSsh` | lib/gen_robot_ssh.py:128-152 | At most five calls, going on only after the tolerated failure; success exactly when the last call logged in |
| `SshRetry.SshLibrary.Recover` | lib/gen_robot_ssh.py:278-332 | A closed connection is logged in to again, a dropped session is replaced by a new connection after closing all; the command is retried exactly when that succeeds |
| `SshRetry.SshLibrary.TryCommand` | lib/gen_robot_ssh.py:248-340 | At most two executions and ten logins, all with the streams' outcomes; each tolerated failure is followed by its recovery, a completed execution is the last event, an unhandled one is followed by closing all connections; it asks for a further attempt only after both |
| `SshRetry.SshLibrary.ExecuteSshCommand` | lib/gen_robot_ssh.py:218-367 | On every stream of outcomes: what is called, what connections are left and what is replied are determined by the streams; a connection is reused exactly when one agrees; the command is executed at most twice with at most 15 login calls, and at least once unless the connection is refused or it cannot be issued for want of an alias, which raises; the first completed execution ends the call, and its stdout, stderr and return code are handed back field by field; otherwise the caller is told why, and an unhandled error is raised again with no connection open |
| `SshRetry.ExecutingGoesOn` | lib/gen_robot_ssh.py:218-340 | Nothing is logged but what the streams hold: every open, login and execution has its stream's outcome |
| `SshRetry.ExecutingIssues` | lib/gen_robot_ssh.py:218-340 | The bounds on executions and logins, that a command that can be issued is, and the four reasons to give up |
| `SshRetry.ExecutingReplies` | lib/gen_robot_ssh.py:334-367 | What the caller gets, by the last event logged |
| `SshRetry.ExecutingHandsBack` | lib/gen_robot_ssh.py:342-367 | What a completed execution returned is handed back field by field: nothing if forked, only the output of a device write, an exception exactly for a return code that is not ignored, and otherwise stdout, stderr and return code |
| `SshRetry.ExecutingComplains` | lib/gen_robot_ssh.py:265-340 | Without a completed execution the caller is told why, by the refusal that ended the call or the message of the last execution: in an exception after an unhandled error, a refused opening, or a login refused while replacing a dropped session, and otherwise in the reply |
| `SshRetry.NextCallReuses` | lib/gen_robot_ssh.py:218-247 | After a completed call, the next one with the same connection arguments opens no connection |
| `SshRetry.FailuresShowExactly` | lib/gen_robot_ssh.py:342-367 | Every call that completes no execution gets a different reply from every call whose execution returned 0, on whatever streams and connections, exactly when the command is neither forked nor a device write with errors ignored |
| `SshRetry.ForkHidesFailure` | lib/gen_robot_ssh.py:342-343 | A forked command whose login was refused gets the same reply as one that was started: none |

## Left out

- FuncTimer: the interleaved protocol is a transition system on values rather than a class, because a signal may interrupt it between any two statements; FuncTimerObject has the fields and the methods, without interruption.
- CommandString.CommandGivenBack: sufficient conditions for the whole line; the exact condition is proved for each option and each parameter (`OptionExactly`, `QuoteExactly`).
- Network.SameNetworkIsReflexive: literal addresses only; name resolution is an outside call, and a host that does not resolve is in no network.
- `get_redfish_session_info`, `list_request`, JSON rendering of the result, and the retry after a JSON decoding error.
- The bash call that splits the command string before the token loop of `parse_command_string`, and splitting HTX output into lines.
- Locating the call text on the stack in `get_arg_name`, and all of `sprint_varx` but its hexa branch.
- `parse_fmt`, `shell_cmd` and `calcDottedNetmask`: they would only add easy members.
- `get_network_info`, the table of private addresses of the Python library, and IPv6 scope ids.
- The lookups before the loop of `verify_image_upload`, and a version entry without an activation state.
- The test mode and the printing of `execute_ssh_command`, and the working of its SSH library.
- Logging, time stamps and stack traces everywhere.
