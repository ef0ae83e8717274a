/** The shell command of a background job (src/jobs.ts): quoting, against the tokenizer of the POSIX
    shell, and the argument list handed to the child. */
module ShellCommand {
  import opened Prelude

  // ── shQuote and childShellCommand ──

  /** replace(/'/g, "'\\''") */
  function Escape(a: string): string {
    if a == "" then "" else Escape(a[..|a| - 1]) + (if a[|a| - 1] == '\'' then "'\\''" else [a[|a| - 1]])
  }

  function ShQuote(a: string): string {
    "'" + Escape(a) + "'"
  }

  /** parts.map(shQuote).join(" ") */
  function QuotedWords(words: seq<string>): string {
    if words == [] then ""
    else if |words| == 1 then ShQuote(words[0])
    else QuotedWords(words[..|words| - 1]) + " " + ShQuote(words[|words| - 1])
  }

  function UnsetFlags(secretNames: seq<string>): seq<string> {
    if secretNames == [] then []
    else UnsetFlags(secretNames[..|secretNames| - 1]) + ["-u", secretNames[|secretNames| - 1]]
  }

  /** The words the child is to be started with. */
  function ChildWords(secretNames: seq<string>, node: string, cli: string, argv: seq<string>): seq<string> {
    ["env"] + UnsetFlags(secretNames) + [node, cli] + argv
  }

  function ChildShellCommand(secretNames: seq<string>, node: string, cli: string, argv: seq<string>,
      log: Option<string>): string {
    var parts := QuotedWords(ChildWords(secretNames, node, cli, argv));
    if log.None? then parts else parts + " 2>&1 | tee -a " + ShQuote(log.value)
  }

  /** Every secret variable is unset, in order, each by its own flag. */
  lemma {:induction false} UnsetFlagsAre(secretNames: seq<string>)
    ensures var flags := UnsetFlags(secretNames);
            && |flags| == 2 * |secretNames|
            && forall i :: 0 <= i < |secretNames| ==> flags[2 * i] == "-u" && flags[2 * i + 1] == secretNames[i]
  {
    if secretNames != [] { UnsetFlagsAre(secretNames[..|secretNames| - 1]); }
  }

  // ── Token recognition, sections 2.2.1, 2.2.2 and 2.3 of the POSIX.1-2017 Shell Command Language ──

  datatype Mode = Unquoted | InSingleQuotes | AfterBackslash

  /** Finished words, the word being read (None between words), and the quoting state. Special: an
      unquoted character that the shell gives a meaning of its own. */
  datatype Lexer = Lexer(words: seq<string>, word: Option<string>, mode: Mode) | Special

  predicate HasShellMeaning(c: char) {
    c in {'|', '&', ';', '<', '>', '(', ')', '$', '`', '"', '*', '?', '[', '#', '~', '=', '%', '!', '{', '}', '\n',
          '\r'}
  }

  function Current(word: Option<string>): string {
    if word.Some? then word.value else ""
  }

  function Read(l: Lexer, c: char): Lexer {
    if l.Special? then l
    else match l.mode
      case InSingleQuotes =>
        if c == '\'' then l.(mode := Unquoted) else l.(word := Some(Current(l.word) + [c]))
      case AfterBackslash =>
        if c == '\n' then l.(mode := Unquoted) else Lexer(l.words, Some(Current(l.word) + [c]), Unquoted)
      case Unquoted =>
        if c == '\'' then Lexer(l.words, Some(Current(l.word)), InSingleQuotes)
        else if c == '\\' then l.(mode := AfterBackslash)
        else if c == ' ' || c == '\t' then
          (if l.word.Some? then Lexer(l.words + [l.word.value], None, Unquoted) else l)
        else if HasShellMeaning(c) then Special
        else l.(word := Some(Current(l.word) + [c]))
  }

  function Lex(l: Lexer, s: string): Lexer {
    if s == "" then l else Read(Lex(l, s[..|s| - 1]), s[|s| - 1])
  }

  const START: Lexer := Lexer([], None, Unquoted)

  /** The words of a simple command without any expansion, redirection or operator; None otherwise
      and when a quote is left open. */
  function Tokenize(s: string): Option<seq<string>> {
    var l := Lex(START, s);
    if l.Special? || l.mode != Unquoted then None else Some(if l.word.Some? then l.words + [l.word.value] else l.words)
  }

  // ── Round trip ──

  lemma {:induction false} LexConcat(l: Lexer, a: string, b: string)
    ensures Lex(l, a + b) == Lex(Lex(l, a), b)
  {
    hide Read;
    if b == "" {
      assert a + b == a;
    } else {
      assert (a + b)[..|a + b| - 1] == a + b[..|b| - 1];
      LexConcat(l, a, b[..|b| - 1]);
    }
  }

  lemma LexOne(l: Lexer, c: char)
    ensures Lex(l, [c]) == Read(l, c)
  {
    hide Read;
    assert [c][..0] == "";
  }

  lemma LexQuoteEscape(l: Lexer)
    requires l.Lexer? && l.mode == InSingleQuotes && l.word.Some?
    ensures Lex(l, "'\\''") == l.(word := Some(l.word.value + "'"))
  {
    var s := "'\\''";
    assert s == ((['\''] + ['\\']) + ['\'']) + ['\''];
    LexOne(l, '\'');
    LexConcat(l, ['\''], ['\\']);
    LexOne(Lex(l, ['\'']), '\\');
    LexConcat(l, ['\''] + ['\\'], ['\'']);
    LexOne(Lex(l, ['\''] + ['\\']), '\'');
    LexConcat(l, (['\''] + ['\\']) + ['\''], ['\'']);
    LexOne(Lex(l, (['\''] + ['\\']) + ['\'']), '\'');
  }

  /** Inside single quotes the escaped text reads as the text itself, whatever its characters. */
  lemma {:induction false} LexEscaped(l: Lexer, a: string)
    requires l.Lexer? && l.mode == InSingleQuotes && l.word.Some?
    ensures Lex(l, Escape(a)) == l.(word := Some(l.word.value + a))
  {
    if a == "" {
      assert l.word.value + "" == l.word.value;
    } else {
      var init, c := a[..|a| - 1], a[|a| - 1];
      LexEscaped(l, init);
      var mid := Lex(l, Escape(init));
      var last := if c == '\'' then "'\\''" else [c];
      LexConcat(l, Escape(init), last);
      assert (l.word.value + init) + [c] == l.word.value + a by { assert init + [c] == a; }
      if c == '\'' {
        LexQuoteEscape(mid);
        assert (l.word.value + init) + "'" == (l.word.value + init) + [c];
      } else {
        LexOne(mid, c);
      }
    }
  }

  lemma LexQuoted(l: Lexer, a: string)
    requires l.Lexer? && l.mode == Unquoted && l.word.None?
    ensures Lex(l, ShQuote(a)) == Lexer(l.words, Some(a), Unquoted)
  {
    LexOne(l, '\'');
    LexConcat(l, "'", Escape(a));
    LexEscaped(Lex(l, "'"), a);
    assert "" + a == a;
    LexConcat(l, "'" + Escape(a), "'");
    LexOne(Lex(l, "'" + Escape(a)), '\'');
  }

  lemma {:induction false} LexQuotedWords(words: seq<string>)
    requires words != []
    ensures Lex(START, QuotedWords(words)) == Lexer(words[..|words| - 1], Some(words[|words| - 1]), Unquoted)
  {
    hide Lex, ShQuote;
    if |words| == 1 {
      LexQuoted(START, words[0]);
      assert words[..0] == [];
    } else {
      var init, last := words[..|words| - 1], words[|words| - 1];
      LexQuotedWords(init);
      var l := Lex(START, QuotedWords(init));
      LexConcat(START, QuotedWords(init), " ");
      LexOne(l, ' ');
      assert init[..|init| - 1] + [init[|init| - 1]] == init;
      LexConcat(START, QuotedWords(init) + " ", ShQuote(last));
      LexQuoted(Lex(START, QuotedWords(init) + " "), last);
    }
  }

  /** The shell starts the child with exactly the intended words: no character of any argument is
      split, expanded, dropped or read as an operator. */
  lemma ChildCommandRoundTrip(secretNames: seq<string>, node: string, cli: string, argv: seq<string>)
    ensures Tokenize(ChildShellCommand(secretNames, node, cli, argv, None))
            == Some(ChildWords(secretNames, node, cli, argv))
  {
    hide Lex, QuotedWords;
    var words := ChildWords(secretNames, node, cli, argv);
    LexQuotedWords(words);
    assert words[..|words| - 1] + [words[|words| - 1]] == words;
  }

  /** With a log, the fixed redirection starts at a word boundary outside quotes, after exactly the
      same words, and the log path is one word. */
  lemma LoggedCommandSplits(secretNames: seq<string>, node: string, cli: string, argv: seq<string>, log: string)
    ensures var words := ChildWords(secretNames, node, cli, argv);
            && ChildShellCommand(secretNames, node, cli, argv, Some(log))
               == (QuotedWords(words) + " ") + "2>&1 | tee -a " + ShQuote(log)
            && Lex(START, QuotedWords(words) + " ") == Lexer(words, None, Unquoted)
            && Tokenize(ShQuote(log)) == Some([log])
  {
    hide Lex, QuotedWords, ShQuote;
    var words := ChildWords(secretNames, node, cli, argv);
    LexQuotedWords(words);
    LexConcat(START, QuotedWords(words), " ");
    LexOne(Lex(START, QuotedWords(words)), ' ');
    assert words[..|words| - 1] + [words[|words| - 1]] == words;
    LexQuoted(START, log);
    assert START.words + [log] == [log];
    assert (QuotedWords(words) + " ") + "2>&1 | tee -a " + ShQuote(log)
           == QuotedWords(words) + " 2>&1 | tee -a " + ShQuote(log);
  }

  /** Different argument lists never give the same command. */
  lemma CommandIsInjective(secretNames: seq<string>, node: string, cli: string, argv: seq<string>, argv': seq<string>)
    requires ChildShellCommand(secretNames, node, cli, argv, None)
             == ChildShellCommand(secretNames, node, cli, argv', None)
    ensures argv == argv'
  {
    hide Tokenize, ChildShellCommand;
    ChildCommandRoundTrip(secretNames, node, cli, argv);
    ChildCommandRoundTrip(secretNames, node, cli, argv');
    var prefix := ["env"] + UnsetFlags(secretNames) + [node, cli];
    assert (prefix + argv)[|prefix|..] == argv && (prefix + argv')[|prefix|..] == argv';
  }

  // ── jobArgv ──

  datatype Selectors = Selectors(ows: Option<string>, wallet: Option<string>, noAgent: bool, dex: Option<string>,
      noBuilder: bool)

  datatype RootFlags = RootFlags(network: string, dryRun: bool, venue: Option<string>, selectors: Selectors)

  function Flag(name: string, value: Option<string>): seq<string> {
    if value.Some? then [name, value.value] else []
  }

  function Switch(name: string, on: bool): seq<string> {
    if on then [name] else []
  }

  function JobArgv(root: RootFlags, cliArgs: seq<string>, id: string): seq<string> {
    ["-n", root.network] + (Switch("--dry-run", root.dryRun)
    + (Flag("-e", root.venue) + (Flag("--ows", root.selectors.ows)
    + (Flag("-w", root.selectors.wallet)
    + (Switch("--no-agent", root.selectors.noAgent) + (Flag("--dex", root.selectors.dex)
    + (Switch("--no-builder", root.selectors.noBuilder) + (cliArgs + ["--job-id", id]))))))))
  }

  // ── The root command line, as the child reads it ──

  /** The root options: what a job passes on, the version, and the others by their long name. */
  datatype RootOption =
    | Network | DryRun | Venue | Ows | Wallet | NoAgent | Dex | NoBuilder | Version | Other(long: string, valued: bool)

  function Named(word: string): Option<RootOption> {
    match word
    case "-n" => Some(Network)
    case "--network" => Some(Network)
    case "--dry-run" => Some(DryRun)
    case "-V" => Some(Version)
    case "--version" => Some(Version)
    case "-e" => Some(Venue)
    case "--exchange" => Some(Venue)
    case "-k" => Some(Other("--private-key", true))
    case "--private-key" => Some(Other("--private-key", true))
    case "--json" => Some(Other("--json", false))
    case "--fields" => Some(Other("--fields", true))
    case "--ndjson" => Some(Other("--ndjson", false))
    case "-w" => Some(Wallet)
    case "--wallet" => Some(Wallet)
    case "--ows" => Some(Ows)
    case "--ows-key" => Some(Other("--ows-key", true))
    case "--no-agent" => Some(NoAgent)
    case "--no-builder" => Some(NoBuilder)
    case "--passphrase" => Some(Other("--passphrase", true))
    case "--dex" => Some(Dex)
    case _ => None
  }

  predicate TakesValue(o: RootOption) {
    o.Network? || o.Venue? || o.Ows? || o.Wallet? || o.Dex? || (o.Other? && o.valued)
  }

  predicate LooksLikeOption(word: string) {
    |word| > 1 && word[0] == '-'
  }

  /** Index of the first '=', or the length. */
  function FirstEquals(word: string): (i: nat)
    ensures i <= |word|
  {
    if word == "" || word[0] == '=' then 0 else 1 + FirstEquals(word[1..])
  }

  /** The root option a word is, with the value it carries itself ("-nX", "--network=X"). */
  function Recognize(word: string): Option<(RootOption, Option<string>)> {
    if Named(word).Some? then Some((Named(word).value, None))
    else if |word| > 2 && word[0] == '-' && word[1] != '-' && Named(word[..2]).Some? then
      var o := Named(word[..2]).value;
      Some((o, if TakesValue(o) then Some(word[2..]) else None))
    else
      var i := FirstEquals(word);
      if 3 <= i < |word| && word[..2] == "--" && Named(word[..i]).Some? && TakesValue(Named(word[..i]).value)
      then Some((Named(word[..i]).value, Some(word[i + 1..]))) else None
  }

  /** The root's options that take a value. */
  lemma ValuedNames(word: string)
    ensures (Named(word).Some? && TakesValue(Named(word).value)) <==>
              || word == "-n" || word == "--network" || word == "-e" || word == "--exchange" || word == "-k"
              || word == "--private-key" || word == "--fields" || word == "-w" || word == "--wallet" || word == "--ows"
              || word == "--ows-key" || word == "--passphrase" || word == "--dex"
  {
  }

  /** The root's options that take none. */
  lemma SwitchNames(word: string)
    ensures (Named(word).Some? && !TakesValue(Named(word).value)) <==>
              || word == "--dry-run" || word == "-V" || word == "--version" || word == "--json" || word == "--ndjson"
              || word == "--no-agent" || word == "--no-builder"
  {
  }

  /** Short and long names of the options a job passes on are the same options. */
  lemma LongNames()
    ensures Named("--network") == Named("-n") && Named("--exchange") == Named("-e") && Named("--wallet") == Named("-w")
  {
  }

  lemma LooksLikeOptionIff(word: string)
    ensures LooksLikeOption(word) <==> word != "-" && word != "" && word[..1] == "-"
  {
  }

  /** The other ways to give a value: attached to a short name, or after '='. */
  lemma {:induction false} AttachedValue(short: string, long: string, o: RootOption, value: string)
    requires |short| == 2 && short[0] == '-' && short[1] != '-' && Named(short) == Some(o) && TakesValue(o)
    requires |long| > 2 && long[..2] == "--" && '=' !in long && Named(long) == Some(o)
    ensures value != "" ==> Recognize(short + value) == Some((o, Some(value)))
    ensures Recognize(long + "=" + value) == Some((o, Some(value)))
  {
    if value != "" {
      LongerIsNotShort(short, value);
      assert (short + value)[..2] == short && (short + value)[2..] == value;
    }
    var word := long + "=" + value;
    HoldsEquals(long, value);
    FirstEqualsAfter(long, value);
    assert word[..2] == "--" && word[..|long|] == long && word[|long| + 1..] == value;
    hide Named, FirstEquals;
    assert word[1] == '-' && '=' in word by { assert word[|long|] == '='; assert word[1] == word[..2][1]; }
  }

  /** No root option is a short name with something after it. */
  lemma LongerIsNotShort(short: string, value: string)
    requires |short| == 2 && short[0] == '-' && short[1] != '-' && value != ""
    ensures Named(short + value).None?
  {
    var word := short + value;
    assert word[0] == '-' && word[1] != '-' && |word| > 2;
  }

  /** No root option's name holds a '='. */
  lemma HoldsEquals(long: string, value: string)
    ensures Named(long + "=" + value).None?
  {
    var word := long + "=" + value;
    assert word[|long|] == '=';
    if Named(word).Some? { NamesHoldNoEquals(word); }
  }

  lemma NamesHoldNoEquals(word: string)
    requires Named(word).Some?
    ensures '=' !in word
  {
  }

  lemma {:induction false} FirstEqualsAfter(long: string, value: string)
    requires '=' !in long
    ensures FirstEquals(long + "=" + value) == |long|
  {
    var word := long + "=" + value;
    if long != "" {
      assert word[0] == long[0] && word[1..] == long[1..] + "=" + value;
      FirstEqualsAfter(long[1..], value);
    } else {
      assert word[0] == '=';
    }
  }

  const NETWORKS: set<string> := {"mainnet", "testnet"}

  /** What the child sees: the flags a job passes on, its other root options, and the words left for
      its subcommand; or it stops with a usage error, or prints the version. */
  datatype Child = Child(root: RootFlags, others: seq<string>, rest: seq<string>) | Stops

  /** The flags once the option is read; None when it ends the program. */
  function Assign(root: RootFlags, o: RootOption, value: string): Option<RootFlags> {
    match o
    case Network => if value in NETWORKS then Some(root.(network := value)) else None
    case DryRun => Some(root.(dryRun := true))
    case Venue => Some(root.(venue := Some(value)))
    case Ows => Some(root.(selectors := root.selectors.(ows := Some(value))))
    case Wallet => Some(root.(selectors := root.selectors.(wallet := Some(value))))
    case NoAgent => Some(root.(selectors := root.selectors.(noAgent := true)))
    case Dex => Some(root.(selectors := root.selectors.(dex := Some(value))))
    case NoBuilder => Some(root.(selectors := root.selectors.(noBuilder := true)))
    case Version => None
    case Other(_, _) => Some(root)
  }

  function Seen(o: RootOption, c: Child): Child {
    if c.Child? && o.Other? then c.(others := [o.long] + c.others) else c
  }

  /** Non-positional options: the root takes its own options wherever they stand, up to a literal "--",
      and passes the other words on. `unknown`: a word that looks like an option has been passed on. */
  function ReadRoot(argv: seq<string>, root: RootFlags, unknown: bool): Child
    decreases |argv|
  {
    if argv == [] then Child(root, [], [])
    else if argv[0] == "--" then Child(root, [], if unknown then argv else argv[1..])
    else
      var found := Recognize(argv[0]);
      if found.None? then
        var c := ReadRoot(argv[1..], root, unknown || LooksLikeOption(argv[0]));
        if c.Child? then c.(rest := [argv[0]] + c.rest) else Stops
      else
        var (o, own) := found.value;
        if !TakesValue(o) || own.Some? then
          var root' := Assign(root, o, if own.Some? then own.value else "");
          if root'.None? then Stops else Seen(o, ReadRoot(argv[1..], root'.value, unknown))
        else if |argv| < 2 then Stops
        else
          var root' := Assign(root, o, argv[1]);
          if root'.None? then Stops else Seen(o, ReadRoot(argv[2..], root'.value, unknown))
  }

  const DEFAULTS := RootFlags("mainnet", false, None, Selectors(None, None, false, None, false))

  lemma JobOptions()
    ensures Named("-n") == Some(Network) && Named("--dry-run") == Some(DryRun) && Named("-e") == Some(Venue)
    ensures Named("--ows") == Some(Ows) && Named("-w") == Some(Wallet) && Named("--no-agent") == Some(NoAgent)
    ensures Named("--dex") == Some(Dex) && Named("--no-builder") == Some(NoBuilder)
  {
  }

  lemma ReadSwitch(name: string, o: RootOption, on: bool, rest: seq<string>, root: RootFlags)
    requires Named(name) == Some(o) && o in {DryRun, NoAgent, NoBuilder} && name != "--"
    ensures ReadRoot(Switch(name, on) + rest, root, false)
            == ReadRoot(rest, if on then Assign(root, o, "").value else root, false)
  {
    hide Named;
    if on {
      var argv := Switch(name, on) + rest;
      assert argv[0] == name && argv[1..] == rest;
    } else {
      assert Switch(name, on) + rest == rest;
    }
  }

  lemma ReadFlag(name: string, o: RootOption, value: Option<string>, rest: seq<string>, root: RootFlags)
    requires Named(name) == Some(o) && o in {Network, Venue, Ows, Wallet, Dex} && name != "--"
    requires o.Network? && value.Some? ==> value.value in NETWORKS
    ensures ReadRoot(Flag(name, value) + rest, root, false)
            == ReadRoot(rest, if value.Some? then Assign(root, o, value.value).value else root, false)
  {
    hide Named;
    if value.Some? {
      var argv := Flag(name, value) + rest;
      assert argv[0] == name && argv[1] == value.value && argv[2..] == rest;
    } else {
      assert Flag(name, value) + rest == rest;
    }
  }

  /** The child first takes over exactly the parent's network, dry-run flag, venue and account selectors,
      even when a selector's value looks like an option, and then reads the command's own words. */
  lemma {:induction false} ChildStartsAsParent(root: RootFlags, cliArgs: seq<string>, id: string)
    requires root.network in NETWORKS
    ensures ReadRoot(JobArgv(root, cliArgs, id), DEFAULTS, false) == ReadRoot(cliArgs + ["--job-id", id], root, false)
  {
    hide ReadRoot, Flag, Switch, Named, NETWORKS;
    JobOptions();
    var sel := root.selectors;
    var tail := cliArgs + ["--job-id", id];
    var r8 := Switch("--no-builder", sel.noBuilder) + tail;
    var r7 := Flag("--dex", sel.dex) + r8;
    var r6 := Switch("--no-agent", sel.noAgent) + r7;
    var r5 := Flag("-w", sel.wallet) + r6;
    var r4 := Flag("--ows", sel.ows) + r5;
    var r3 := Flag("-e", root.venue) + r4;
    var r2 := Switch("--dry-run", root.dryRun) + r3;
    assert JobArgv(root, cliArgs, id) == Flag("-n", Some(root.network)) + r2 by { NetworkFlag(root.network); }
    var d1 := DEFAULTS.(network := root.network);
    ReadFlag("-n", Network, Some(root.network), r2, DEFAULTS);
    ReadSwitch("--dry-run", DryRun, root.dryRun, r3, d1);
    var d2 := d1.(dryRun := root.dryRun);
    ReadFlag("-e", Venue, root.venue, r4, d2);
    var d3 := d2.(venue := root.venue);
    ReadFlag("--ows", Ows, sel.ows, r5, d3);
    var d4 := d3.(selectors := d3.selectors.(ows := sel.ows));
    ReadFlag("-w", Wallet, sel.wallet, r6, d4);
    var d5 := d4.(selectors := d4.selectors.(wallet := sel.wallet));
    ReadSwitch("--no-agent", NoAgent, sel.noAgent, r7, d5);
    var d6 := d5.(selectors := d5.selectors.(noAgent := sel.noAgent));
    ReadFlag("--dex", Dex, sel.dex, r8, d6);
    var d7 := d6.(selectors := d6.selectors.(dex := sel.dex));
    ReadSwitch("--no-builder", NoBuilder, sel.noBuilder, tail, d7);
  }

  lemma NetworkFlag(network: string)
    ensures Flag("-n", Some(network)) == ["-n", network]
  {
  }

  /** Words before the first "--". */
  function Scanned(words: seq<string>): (n: nat)
    ensures n <= |words| && (n < |words| ==> words[n] == "--") && forall k :: 0 <= k < n ==> words[k] != "--"
  {
    if words == [] || words[0] == "--" then 0 else 1 + Scanned(words[1..])
  }

  /** The root leaves these words alone: none before the first "--" is an option of its own, and a "--"
      comes after a word that looks like an option. */
  predicate LeftAlone(words: seq<string>, unknown: bool) {
    var n := Scanned(words);
    && (forall k :: 0 <= k < n ==> Recognize(words[k]).None?)
    && (n < |words| ==> unknown || exists k :: 0 <= k < n && LooksLikeOption(words[k]))
  }

  lemma LeftAloneNext(words: seq<string>, unknown: bool)
    requires words != [] && words[0] != "--"
    ensures LeftAlone(words, unknown)
            <==> Recognize(words[0]).None? && LeftAlone(words[1..], unknown || LooksLikeOption(words[0]))
  {
    hide Recognize, LooksLikeOption;
    var rest, n := words[1..], Scanned(words);
    assert n == 1 + Scanned(rest);
    forall k | 0 <= k < n - 1 ensures rest[k] == words[k + 1] {}
    if k :| 0 <= k < n && LooksLikeOption(words[k]) {
      if k > 0 { assert LooksLikeOption(rest[k - 1]); }
    }
    if k :| 0 <= k < n - 1 && LooksLikeOption(rest[k]) { assert LooksLikeOption(words[k + 1]); }
    if forall k :: 0 <= k < n ==> Recognize(words[k]).None? {
      forall k | 0 <= k < n - 1 ensures Recognize(rest[k]).None? { assert Recognize(words[k + 1]).None?; }
    }
    if Recognize(words[0]).None? && forall k :: 0 <= k < n - 1 ==> Recognize(rest[k]).None? {
      forall k | 0 <= k < n ensures Recognize(words[k]).None? { if k > 0 { assert Recognize(rest[k - 1]).None?; } }
    }
  }

  /** The root passes on no more words than it was given, and fewer when the first is its own option. */
  lemma {:induction false} RestIsShorter(words: seq<string>, root: RootFlags, unknown: bool)
    ensures var c := ReadRoot(words, root, unknown);
            c.Child? ==>
              |c.rest| <= |words|
                && (words != [] && words[0] != "--" && Recognize(words[0]).Some? ==> |c.rest| < |words|)
    decreases |words|
  {
    hide Recognize, Assign, LooksLikeOption;
    if words != [] && words[0] != "--" {
      var found := Recognize(words[0]);
      if found.None? {
        RestIsShorter(words[1..], root, unknown || LooksLikeOption(words[0]));
      } else {
        var (o, own) := found.value;
        var inline := !TakesValue(o) || own.Some?;
        if inline || |words| >= 2 {
          var root' := Assign(root, o, if own.Some? then own.value else if inline then "" else words[1]);
          if root'.Some? { RestIsShorter(if inline then words[1..] else words[2..], root'.value, unknown); }
        }
      }
    }
  }

  lemma {:induction false} ReadIff(words: seq<string>, root: RootFlags, unknown: bool)
    ensures ReadRoot(words, root, unknown) == Child(root, [], words) <==> LeftAlone(words, unknown)
    decreases |words|
  {
    hide Recognize, Assign, LooksLikeOption;
    if words == [] {
    } else if words[0] == "--" {
      assert Scanned(words) == 0;
    } else {
      LeftAloneNext(words, unknown);
      if Recognize(words[0]).Some? {
        RestIsShorter(words, root, unknown);
      } else {
        ReadIff(words[1..], root, unknown || LooksLikeOption(words[0]));
        assert words == [words[0]] + words[1..];
      }
    }
  }

  /** The child runs with exactly the parent's network, dry-run flag, venue and account selectors, no other
      root option, and the given command with its job id, if and only if the root leaves the words of the
      command and the id alone. */
  lemma ChildGetsParentSelectorsIff(root: RootFlags, cliArgs: seq<string>, id: string)
    requires root.network in NETWORKS
    ensures ReadRoot(JobArgv(root, cliArgs, id), DEFAULTS, false) == Child(root, [], cliArgs + ["--job-id", id])
            <==> LeftAlone(cliArgs + ["--job-id", id], false)
  {
    hide ReadRoot, JobArgv, LeftAlone;
    ChildStartsAsParent(root, cliArgs, id);
    ReadIff(cliArgs + ["--job-id", id], root, false);
  }

  /** Whatever the words, a dry run stays a dry run, and the agent and the builder fee stay off. */
  lemma {:induction false} SwitchesAreKept(words: seq<string>, root: RootFlags, unknown: bool)
    ensures var c := ReadRoot(words, root, unknown);
            c.Child? ==>
              && (root.dryRun ==> c.root.dryRun) && (root.selectors.noAgent ==> c.root.selectors.noAgent)
              && (root.selectors.noBuilder ==> c.root.selectors.noBuilder)
                 && c.root.network in {root.network} + NETWORKS
    decreases |words|
  {
    hide Recognize, LooksLikeOption;
    if words != [] && words[0] != "--" {
      var found := Recognize(words[0]);
      if found.None? {
        SwitchesAreKept(words[1..], root, unknown || LooksLikeOption(words[0]));
      } else {
        var (o, own) := found.value;
        var inline := !TakesValue(o) || own.Some?;
        if inline || |words| >= 2 {
          var root' := Assign(root, o, if own.Some? then own.value else if inline then "" else words[1]);
          if root'.Some? { SwitchesAreKept(if inline then words[1..] else words[2..], root'.value, unknown); }
        }
      }
    }
  }

  lemma DryRunStaysDry(root: RootFlags, cliArgs: seq<string>, id: string)
    requires root.network in NETWORKS
    ensures var c := ReadRoot(JobArgv(root, cliArgs, id), DEFAULTS, false);
            c.Child? ==>
              && (root.dryRun ==> c.root.dryRun) && (root.selectors.noAgent ==> c.root.selectors.noAgent)
              && (root.selectors.noBuilder ==> c.root.selectors.noBuilder) && c.root.network in NETWORKS
  {
    hide ReadRoot, JobArgv;
    ChildStartsAsParent(root, cliArgs, id);
    SwitchesAreKept(cliArgs + ["--job-id", id], root, false);
  }

  /** `arb auto --background --symbols=-nmainnet` from a testnet parent: the two words "--symbols" and
      "-nmainnet" reach the child, whose root takes the second as its network. The job runs on mainnet. */
  lemma OptionValueSwitchesNetwork()
    ensures var root := DEFAULTS.(network := "testnet");
            ReadRoot(JobArgv(root, ["arb", "auto", "--symbols", "-nmainnet"], "id"), DEFAULTS, false)
            == Child(DEFAULTS, [], ["arb", "auto", "--symbols", "--job-id", "id"])
  {
    hide ReadRoot, JobArgv, Recognize;
    var root := DEFAULTS.(network := "testnet");
    var cliArgs := ["arb", "auto", "--symbols", "-nmainnet"];
    ChildStartsAsParent(root, cliArgs, "id");
    var tail, rest := ["--job-id", "id"], ["--symbols", "--job-id", "id"];
    PlainWords();
    AttachedNetwork();
    assert cliArgs + tail == ["arb"] + (["auto"] + (["--symbols"] + (["-nmainnet"] + (["--job-id"] + (["id"] + [])))));
    ReadNothing(DEFAULTS);
    ReadPlain("id", [], DEFAULTS, true);
    ReadPlain("--job-id", ["id"] + [], DEFAULTS, true);
    ReadAttached("-nmainnet", "mainnet", ["--job-id"] + (["id"] + []), root);
    ReadPlain("--symbols", ["-nmainnet"] + (["--job-id"] + (["id"] + [])), root, false);
    ReadPlain("auto", ["--symbols"] + (["-nmainnet"] + (["--job-id"] + (["id"] + []))), root, false);
    ReadPlain("arb", ["auto"] + (["--symbols"] + (["-nmainnet"] + (["--job-id"] + (["id"] + [])))), root, false);
    assert ["arb"] + (["auto"] + (["--symbols"] + (["--job-id"] + (["id"] + [])))) == ["arb", "auto"] + rest;
  }

  lemma ReadNothing(root: RootFlags)
    ensures ReadRoot([], root, true) == Child(root, [], [])
  {
  }

  /** A word the root does not know is passed on. */
  lemma ReadPlain(word: string, words: seq<string>, root: RootFlags, unknown: bool)
    requires word != "--" && Recognize(word).None?
    ensures var c := ReadRoot(words, root, unknown || LooksLikeOption(word));
            ReadRoot([word] + words, root, unknown) == if c.Child? then c.(rest := [word] + c.rest) else Stops
  {
    hide Recognize, LooksLikeOption;
    assert ([word] + words)[0] == word && ([word] + words)[1..] == words;
  }

  lemma ReadAttached(word: string, network: string, words: seq<string>, root: RootFlags)
    requires word != "--" && Recognize(word) == Some((Network, Some(network))) && network in NETWORKS
    ensures ReadRoot([word] + words, root, true) == ReadRoot(words, root.(network := network), true)
  {
    hide Recognize;
    assert ([word] + words)[0] == word && ([word] + words)[1..] == words;
  }

  lemma AttachedNetwork()
    ensures Recognize("-nmainnet") == Some((Network, Some("mainnet")))
  {
    assert "-nmainnet"[..2] == "-n" && "-nmainnet"[2..] == "mainnet";
  }

  lemma PlainWords()
    ensures Recognize("arb").None? && Recognize("auto").None? && Recognize("id").None?
    ensures Recognize("--symbols").None? && Recognize("--job-id").None?
  {
    hide Recognize, Named;
    PlainOperands();
    PlainOptions();
    Plain("arb");
    Plain("auto");
    Plain("id");
    Plain("--symbols");
    Plain("--job-id");
  }

  lemma PlainOperands()
    ensures Named("arb").None? && Named("auto").None? && Named("id").None?
  {
  }

  lemma PlainOptions()
    ensures Named("--symbols").None? && Named("--job-id").None?
  {
  }

  /** A word that is no root option's name, holds no '=' and does not start with a single dash. */
  lemma Plain(word: string)
    requires Named(word).None? && '=' !in word && (|word| > 1 && word[0] == '-' ==> word[1] == '-')
    ensures Recognize(word).None?
  {
    hide Named;
    NoEquals(word);
  }

  lemma {:induction false} NoEquals(word: string)
    requires '=' !in word
    ensures FirstEquals(word) == |word|
  {
    if word != "" { NoEquals(word[1..]); }
  }
}
