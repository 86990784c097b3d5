/**
 * `get_raw_cmds` from main.py: one query's result rows become raw script
 * commands. The regular-expression engine is not modelled; `re.search(regex,
 * msg).group(0)` is the parameter `search`, which yields the whole matched
 * substring of the message or `None`.
 */
module Extraction {
  import opened Wrappers
  import opened PyStr

  /** The columns of a result row the pipeline reads: 0 (id), 1 (timestamp), 3 (message). */
  datatype Row = Row(id: int, timestamp: int, message: string)

  /** The list `[id, timestamp, script text]` built for a matching row. */
  datatype Cmd = Cmd(id: int, timestamp: int, text: string)

  /** The argument placeholder of a query's script template. */
  const Arg := "<ARG>"

  /** `re.search(regex, msg).group(0)`: when there is a match, it is a substring of the message. */
  type Search = f: (string, string) -> Option<string>
    | forall regex, msg :: f(regex, msg).Some? ==> Contains(msg, f(regex, msg).value)
    witness (regex: string, msg: string) => None

  /** A Python-truthy regex: present and not the empty string. */
  predicate Truthy(regex: Option<string>) {
    regex.Some? && regex.value != ""
  }

  /** The filter of the comprehension: `regex and re.search(regex, column[3])`. */
  function Match(regex: Option<string>, search: Search, msg: string): (m: Option<string>)
    ensures m.Some? ==> Truthy(regex) && Contains(msg, m.value)
  {
    if Truthy(regex) then search(regex.value, msg) else None
  }

  /** How many rows have a match. */
  function MatchCount(rows: seq<Row>, regex: Option<string>, search: Search): nat {
    if rows == [] then 0
    else (if Match(regex, search, rows[0].message).Some? then 1 else 0) + MatchCount(rows[1..], regex, search)
  }

  /** `get_raw_cmds(query_res, regex, script_tpl)`. */
  function GetRawCmds(rows: seq<Row>, regex: Option<string>, tpl: string, search: Search): (r: seq<Cmd>)
    ensures |r| == MatchCount(rows, regex, search)
    ensures |r| <= |rows|
    ensures !Truthy(regex) ==> r == []
  {
    if rows == [] then []
    else
      var rest := GetRawCmds(rows[1..], regex, tpl, search);
      match Match(regex, search, rows[0].message)
      case Some(m) => [Cmd(rows[0].id, rows[0].timestamp, ReplaceAll(tpl, Arg, m))] + rest
      case None => rest
  }

  /**
   * The matching row `i` yields the command at position "number of matching
   * rows before `i`": its id and timestamp are the row's, its text is the
   * template with every `<ARG>` replaced by the match. Since those positions
   * grow with `i` and their number is the length of the result, the result
   * holds exactly the matching rows, one command each, in row order.
   */
  lemma {:induction false} GetRawCmdsAt(rows: seq<Row>, regex: Option<string>, tpl: string, search: Search, i: nat)
    requires i < |rows|
    requires Match(regex, search, rows[i].message).Some?
    ensures MatchCount(rows[..i], regex, search) < |GetRawCmds(rows, regex, tpl, search)|
    ensures GetRawCmds(rows, regex, tpl, search)[MatchCount(rows[..i], regex, search)]
         == Cmd(rows[i].id, rows[i].timestamp, ReplaceAll(tpl, Arg, Match(regex, search, rows[i].message).value))
    decreases i
  {
    if i > 0 {
      GetRawCmdsAt(rows[1..], regex, tpl, search, i - 1);
      assert rows[..i][1..] == rows[1..][..i - 1];
    }
  }

  /** Matching rows lie at strictly increasing positions of the result. */
  lemma {:induction false} MatchCountGrows(rows: seq<Row>, regex: Option<string>, search: Search, i: nat, j: nat)
    requires i < j <= |rows|
    requires Match(regex, search, rows[i].message).Some?
    ensures MatchCount(rows[..i], regex, search) < MatchCount(rows[..j], regex, search)
    decreases i
  {
    if i == 0 {
      assert rows[..j][0] == rows[0];
    } else {
      MatchCountGrows(rows[1..], regex, search, i - 1, j - 1);
      assert rows[..i][1..] == rows[1..][..i - 1];
      assert rows[..j][1..] == rows[1..][..j - 1];
    }
  }
}
