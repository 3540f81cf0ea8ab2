/**
 * The calls the front ends make into the line-editor engine (tinyrl) while
 * completing a word, accepting a line and executing it.
 *
 * The engine itself (line buffer, redisplay, history store, the completion
 * primitives) is not part of this model. Each of those calls is recorded,
 * in order, as an `EngineCall`; what the engine answers, the line and the
 * cursor included, is handed to the front end as a parameter, with no
 * contract assumed beyond its type. The calls that create the engine, bind
 * the keys, create the history and delete both are not recorded.
 */
module Engine {

  datatype EngineCall =
    | AddMatch(start: nat, name: string)           // tinyrl_add_match(t, start, matches, name)
    | CompleteMatches(start: nat, allowPrefix: bool) // tinyrl_complete(t, start, matches, allow_prefix)
    | DeleteMatches                                  // tinyrl_delete_matches(matches)
    | InsertText(text: string)                       // tinyrl_insert_text(t, text)
    | Crlf                                           // tinyrl_crlf(t)
    | Done                                           // tinyrl_done(t)
    | HistoryAdd(line: string)                       // tinyrl_history_add(t->history, line)
    | Output(text: string)                           // the text of one or more tinyrl_printf calls

  /**
   * The engine's answers during one key press: whether the match list is
   * non-NULL once every table name has been offered, what tinyrl_complete
   * returns, and what tinyrl_insert_text returns.
   */
  datatype Answers = Answers(matched: bool, completed: bool, inserted: bool)
}
