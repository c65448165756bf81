/**
 * The tray menu: labels and ids of the history entries (`update_tray_menu`
 * in src-tauri/src/lib.rs) and the menu-event handler that maps an id back to
 * an action.
 */
module Tray {
  import opened Common
  import opened History

  /** At most this many history entries are listed in the tray menu. */
  const MaxListed: nat := 10
  /** Text labels keep at most this many characters. */
  const LabelChars: nat := 20
  const Ellipsis: string := "..."
  const HistoryPrefix: string := "history_"
  /** `usize::MAX` on a 64-bit target. */
  const UsizeMax: nat := 0xFFFF_FFFF_FFFF_FFFF

  /** A menu entry with its id and label, or a separator line. */
  datatype MenuItem = Entry(id: string, title: string) | Separator

  /** What the menu handler does for a clicked id. */
  datatype MenuAction = Quit | ShowMain | CopyToClipboard(item: ClipboardItem) | Ignore

  // ---------------------------------------------------------------------
  // Labels

  /**
   * The label of a history entry: a text entry shows its first 20 characters,
   * with "..." when it has more; any other entry shows "Image " and its
   * timestamp.
   */
  function Label(item: ClipboardItem): (r: string)
    ensures item.kind == "text" && |item.content| <= LabelChars ==> r == item.content
    ensures item.kind == "text" && |item.content| > LabelChars ==>
      |r| == LabelChars + |Ellipsis| && r[..LabelChars] == item.content[..LabelChars] && r[LabelChars..] == Ellipsis
    ensures item.kind != "text" ==> r == "Image " + item.timestamp
  {
    var title := if item.kind == "text" then Take(item.content, LabelChars) else "Image " + item.timestamp;
    if item.kind == "text" && |item.content| > LabelChars then title + Ellipsis else title
  }

  /**
   * A text label starts with the first min(20, n) characters of the text; it
   * carries "..." after character 20 exactly when the text has n > 20
   * characters, and only then is it longer than 20 characters.
   */
  lemma LabelTruncatedIff(item: ClipboardItem)
    requires item.kind == "text"
    ensures var n := Min(LabelChars, |item.content|);
      n <= |Label(item)| && Label(item)[..n] == item.content[..n]
    ensures (|Label(item)| > LabelChars && Label(item)[LabelChars..] == Ellipsis) <==> |item.content| > LabelChars
    ensures |item.content| > LabelChars <==> |Label(item)| > LabelChars
  {
  }

  // ---------------------------------------------------------------------
  // Decimal numbers: `format!("{}", i)` and `str::parse::<usize>`

  predicate IsDigit(c: char)
  {
    '0' <= c <= '9'
  }

  predicate AllDigits(s: string)
  {
    forall k :: 0 <= k < |s| ==> IsDigit(s[k])
  }

  function DigitChar(d: nat): (c: char)
    requires d < 10
    ensures IsDigit(c) && c as int - '0' as int == d
  {
    ('0' as int + d) as char
  }

  /** The value of a digit string, most significant digit first. */
  function DigitsValue(s: string): nat
    requires AllDigits(s)
  {
    if s == [] then 0 else 10 * DigitsValue(s[..|s| - 1]) + (s[|s| - 1] as int - '0' as int)
  }

  /** The decimal form of `n`, without leading zeros. */
  function Decimal(n: nat): (r: string)
    ensures |r| >= 1 && AllDigits(r)
    ensures r[0] == '0' ==> n == 0
    decreases n
  {
    if n < 10 then [DigitChar(n)] else Decimal(n / 10) + [DigitChar(n % 10)]
  }

  /**
   * `usize::from_str`: one optional leading '+', then at least one digit and
   * nothing else, and a value that fits in a `usize`.
   */
  function ParseUsize(s: string): (r: Option<nat>)
    ensures r.Some? ==> r.value <= UsizeMax
    ensures r.Some? ==> |s| >= 1 && (AllDigits(s) || (s[0] == '+' && AllDigits(s[1..])))
  {
    var digits := if |s| > 0 && s[0] == '+' then s[1..] else s;
    if |digits| == 0 || !AllDigits(digits) then None
    else if DigitsValue(digits) > UsizeMax then None
    else Some(DigitsValue(digits))
  }

  lemma {:induction false} DecimalValue(n: nat)
    ensures DigitsValue(Decimal(n)) == n
    decreases n
  {
    var r := Decimal(n);
    if n >= 10 {
      DecimalValue(n / 10);
      assert r[..|r| - 1] == Decimal(n / 10);
    }
  }

  /** Parsing the decimal form of any `usize` gives it back. */
  lemma ParseDecimal(n: nat)
    requires n <= UsizeMax
    ensures ParseUsize(Decimal(n)) == Some(n)
  {
    DecimalValue(n);
  }

  // ---------------------------------------------------------------------
  // Ids

  /** The id of the `i`-th listed entry: `format!("history_{}", i)`. */
  function HistoryId(i: nat): (r: string)
    ensures |r| > |HistoryPrefix| && r[..|HistoryPrefix|] == HistoryPrefix
    ensures AllDigits(r[|HistoryPrefix|..])
  {
    HistoryPrefix + Decimal(i)
  }

  /** `str::replace(pattern, to)`: every non-overlapping match, left to right, is replaced. */
  function ReplaceAll(s: string, pattern: string, to: string): (r: string)
    requires |pattern| > 0
    ensures |to| <= |pattern| ==> |r| <= |s|
    ensures |s| < |pattern| ==> r == s
    decreases |s|
  {
    if |s| >= |pattern| && s[..|pattern|] == pattern then to + ReplaceAll(s[|pattern|..], pattern, to)
    else if s == [] then []
    else [s[0]] + ReplaceAll(s[1..], pattern, to)
  }

  /** A string with no occurrence of the pattern's first character is left as it is. */
  lemma {:induction false} ReplaceAllAbsent(s: string, pattern: string, to: string)
    requires |pattern| > 0
    requires forall k :: 0 <= k < |s| ==> s[k] != pattern[0]
    ensures ReplaceAll(s, pattern, to) == s
    decreases |s|
  {
    if s != [] {
      if |s| >= |pattern| {
        assert s[..|pattern|][0] == s[0];
      }
      ReplaceAllAbsent(s[1..], pattern, to);
    }
  }

  /** A leading occurrence of the pattern is replaced, and the rest is replaced on its own. */
  lemma ReplaceAllLeading(t: string, pattern: string, to: string)
    requires |pattern| > 0
    ensures ReplaceAll(pattern + t, pattern, to) == to + ReplaceAll(t, pattern, to)
  {
    var s := pattern + t;
    assert s[..|pattern|] == pattern;
    assert s[|pattern|..] == t;
  }

  // ---------------------------------------------------------------------
  // The menu and its handler

  /** The history part of the menu: one entry per listed item, at most 10. */
  function HistoryEntries(history: seq<ClipboardItem>): (r: seq<MenuItem>)
    ensures |r| == Min(MaxListed, |history|)
    ensures forall i :: 0 <= i < |r| ==> r[i] == Entry(HistoryId(i), Label(history[i]))
  {
    seq(Min(MaxListed, |history|), i requires 0 <= i < Min(MaxListed, |history|) => Entry(HistoryId(i), Label(history[i])))
  }

  /** The whole tray menu `update_tray_menu` installs. */
  function TrayMenu(history: seq<ClipboardItem>): (r: seq<MenuItem>)
    ensures |r| == 4 + Min(MaxListed, |history|)
    ensures r[0] == Entry("show", "Show History") && r[1] == Separator
    ensures r[|r| - 2] == Separator && r[|r| - 1] == Entry("quit", "Quit")
    ensures r[2..|r| - 2] == HistoryEntries(history)
  {
    [Entry("show", "Show History"), Separator] + HistoryEntries(history) + [Separator, Entry("quit", "Quit")]
  }

  /** `on_menu_event`: "quit", "show", or a `history_`-prefixed id naming an entry to copy. */
  function HandleMenuEvent(id: string, history: seq<ClipboardItem>): (r: MenuAction)
    ensures r == Quit <==> id == "quit"
    ensures r == ShowMain <==> id == "show"
    ensures r.CopyToClipboard? ==> r.item in history && |id| >= |HistoryPrefix| && id[..|HistoryPrefix|] == HistoryPrefix
    ensures r.CopyToClipboard? ==> var index := ParseUsize(ReplaceAll(id, HistoryPrefix, ""));
      index.Some? && index.value < |history| && r.item == history[index.value]
  {
    if id == "quit" then Quit
    else if id == "show" then ShowMain
    else if |id| >= |HistoryPrefix| && id[..|HistoryPrefix|] == HistoryPrefix then
      match ParseUsize(ReplaceAll(id, HistoryPrefix, ""))
      case Some(index) => if index < |history| then CopyToClipboard(history[index]) else Ignore
      case None => Ignore
    else Ignore
  }

  /** The handler reads back the index written into a history id. */
  lemma HistoryIdRoundTrip(i: nat, history: seq<ClipboardItem>)
    requires i <= UsizeMax
    ensures ReplaceAll(HistoryId(i), HistoryPrefix, "") == Decimal(i)
    ensures HandleMenuEvent(HistoryId(i), history) == if i < |history| then CopyToClipboard(history[i]) else Ignore
  {
    var id := HistoryId(i);
    assert id[..|HistoryPrefix|] == HistoryPrefix;
    ReplaceAllLeading(Decimal(i), HistoryPrefix, "");
    ReplaceAllAbsent(Decimal(i), HistoryPrefix, "");
    ParseDecimal(i);
    assert id != "quit" by { assert id[0] == 'h'; }
    assert id != "show" by { assert id[0] == 'h'; }
  }

  /** Distinct listed entries get distinct ids. */
  lemma HistoryIdInjective(i: nat, j: nat)
    requires i <= UsizeMax && j <= UsizeMax && HistoryId(i) == HistoryId(j)
    ensures i == j
  {
    ParseDecimal(i);
    ParseDecimal(j);
    assert Decimal(i) == HistoryId(i)[|HistoryPrefix|..];
    assert Decimal(j) == HistoryId(j)[|HistoryPrefix|..];
  }

  /** The k-th menu entry, a listed history entry, of a menu built from `shown`, clicked while the history is `current`. */
  lemma HistoryEntryHandled(shown: seq<ClipboardItem>, current: seq<ClipboardItem>, k: nat)
    requires 2 <= k < |TrayMenu(shown)| - 2
    ensures TrayMenu(shown)[k] == Entry(HistoryId(k - 2), Label(shown[k - 2]))
    ensures HandleMenuEvent(TrayMenu(shown)[k].id, current) ==
      if k - 2 < |current| then CopyToClipboard(current[k - 2]) else Ignore
  {
    var menu := TrayMenu(shown);
    var j := k - 2;
    assert menu[k] == menu[2..|menu| - 2][j];
    assert menu[k] == HistoryEntries(shown)[j];
    HistoryIdRoundTrip(j, current);
  }

  /** The first and the last entries of the menu open the main window and quit. */
  lemma FixedEntriesHandled(shown: seq<ClipboardItem>, current: seq<ClipboardItem>)
    ensures HandleMenuEvent(TrayMenu(shown)[0].id, current) == ShowMain
    ensures HandleMenuEvent(TrayMenu(shown)[|TrayMenu(shown)| - 1].id, current) == Quit
  {
  }

  /**
   * Clicking any entry of a menu built from the list `shown` while the
   * history is `current`: "show" opens the main window, "quit" quits, and the
   * j-th history entry copies the j-th item of `current` if there is one and
   * otherwise does nothing. When the menu was built from the current list,
   * every entry copies the item it shows.
   */
  lemma MenuEntriesHandled(shown: seq<ClipboardItem>, current: seq<ClipboardItem>, k: nat)
    requires k < |TrayMenu(shown)| && TrayMenu(shown)[k].Entry?
    ensures var id := TrayMenu(shown)[k].id;
      HandleMenuEvent(id, current) ==
        if k == 0 then ShowMain
        else if k == |TrayMenu(shown)| - 1 then Quit
        else if k - 2 < |current| then CopyToClipboard(current[k - 2])
        else Ignore
    ensures shown == current && 2 <= k < |TrayMenu(shown)| - 2 ==>
      HandleMenuEvent(TrayMenu(shown)[k].id, current) == CopyToClipboard(shown[k - 2]) &&
      TrayMenu(shown)[k].title == Label(shown[k - 2])
  {
    if k == 0 || k == |TrayMenu(shown)| - 1 {
      FixedEntriesHandled(shown, current);
    } else {
      assert TrayMenu(shown)[1] == Separator && TrayMenu(shown)[|TrayMenu(shown)| - 2] == Separator;
      HistoryEntryHandled(shown, current, k);
    }
  }
}
