/** The parse-and-validate part of `process_manual_data` (main.py): the
    operator's message is stripped and split on whitespace; anything but two
    tokens, or a token `float` rejects, gets an error reply and the dialogue
    keeps waiting for input; two numbers with the dry one below the wet one
    get the ordering reply and end the dialogue; otherwise the pair goes, as
    it is, to `calculate_humidity` and the dialogue ends. */
module ManualEntry {
  import opened Wrappers
  import opened PyStr
  import opened PyFloat

  /** The reply the handler sends. */
  datatype Reply =
    | FormatErrorReply   // "enter two numbers separated by a space"
    | NumberErrorReply   // the `ValueError` handler: "enter valid numbers"
    | OrderErrorReply    // "the wet reading cannot exceed the dry reading"
    | ResultReply        // the calculation's result (or its own error text)

  /** Where the dialogue is after the message: still in the manual-input
      state, or ended by `state.finish()`. */
  datatype DialogueState = WaitingForManualInput | Finished

  /** The arguments `calculate_humidity(t_dry, t_wet)` is called with. */
  datatype Calculation = Calculation(tDry: real, tWet: real)

  /** The reply, the dialogue state after it and the call into the
      calculation engine, if one was made (at most one per message). */
  datatype ManualOutcome = ManualOutcome(reply: Reply, next: DialogueState, calculation: Option<Calculation>)

  /** What the handler does with the text of one message. */
  function ProcessManualData(text: string): (o: ManualOutcome)
    ensures o.calculation.Some? <==> o.reply == ResultReply
    ensures o.next == Finished <==> o.reply == OrderErrorReply || o.reply == ResultReply
    ensures o.calculation.Some? ==> o.calculation.value.tDry >= o.calculation.value.tWet
  {
    var data := SplitWhitespace(Strip(text));
    if |data| != 2 then
      ManualOutcome(FormatErrorReply, WaitingForManualInput, None)
    else
      match (ParseNum(data[0]), ParseNum(data[1]))
      case (Some(tDry), Some(tWet)) =>
        if tDry < tWet then ManualOutcome(OrderErrorReply, Finished, None)
        else ManualOutcome(ResultReply, Finished, Some(Calculation(tDry, tWet)))
      case _ =>
        ManualOutcome(NumberErrorReply, WaitingForManualInput, None)
  }

  /** Any number of whitespace-separated tokens other than two gives the
      format reply and keeps the dialogue waiting; no calculation is made. */
  lemma FormatErrorIff(text: string)
    ensures ProcessManualData(text).reply == FormatErrorReply <==> |SplitWhitespace(text)| != 2
    ensures ProcessManualData(text).reply == FormatErrorReply ==>
              ProcessManualData(text).next == WaitingForManualInput
  {
    SplitWhitespaceStrip(text);
  }

  /** Two tokens of which either is not a number give the numeric reply and
      keep the dialogue waiting; no calculation is made. */
  lemma NumberErrorIff(text: string)
    ensures var tokens := SplitWhitespace(text);
            ProcessManualData(text).reply == NumberErrorReply
            <==> |tokens| == 2 && (ParseNum(tokens[0]).None? || ParseNum(tokens[1]).None?)
    ensures ProcessManualData(text).reply == NumberErrorReply ==>
              ProcessManualData(text).next == WaitingForManualInput
  {
    SplitWhitespaceStrip(text);
  }

  /** Two numbers with dry strictly below wet give the ordering reply and end
      the dialogue, without calling the calculation. */
  lemma OrderErrorIff(text: string)
    ensures var tokens := SplitWhitespace(text);
            ProcessManualData(text).reply == OrderErrorReply
            <==> && |tokens| == 2
                 && ParseNum(tokens[0]).Some? && ParseNum(tokens[1]).Some?
                 && ParseNum(tokens[0]).value < ParseNum(tokens[1]).value
    ensures ProcessManualData(text).reply == OrderErrorReply ==>
              ProcessManualData(text).next == Finished && ProcessManualData(text).calculation.None?
  {
    SplitWhitespaceStrip(text);
  }

  /** The calculation is called, once, with `(t_dry, t_wet)` exactly when the
      message is two numbers `t_dry t_wet` with `t_dry >= t_wet` (equal
      readings pass); the values reach it unchanged and in order. */
  lemma CalculationIff(text: string, tDry: real, tWet: real)
    ensures var tokens := SplitWhitespace(text);
            ProcessManualData(text).calculation == Some(Calculation(tDry, tWet))
            <==> && |tokens| == 2
                 && ParseNum(tokens[0]) == Some(tDry) && ParseNum(tokens[1]) == Some(tWet)
                 && tDry >= tWet
  {
    SplitWhitespaceStrip(text);
  }

  /** Two numbers written without whitespace inside them and separated by a
      space reach the calculation as they are read, or give the ordering
      reply when the first is below the second. */
  lemma TwoNumberEntry(a: string, b: string, x: real, y: real)
    requires a != [] && NoSpace(a) && b != [] && NoSpace(b)
    requires ParseNum(a) == Some(x) && ParseNum(b) == Some(y)
    ensures ProcessManualData(a + " " + b)
         == if x >= y then ManualOutcome(ResultReply, Finished, Some(Calculation(x, y)))
            else ManualOutcome(OrderErrorReply, Finished, None)
  {
    assert JoinWords([a, b]) == a + " " + b;
    SplitWhitespaceJoinWords([a, b]);
    SplitWhitespaceStrip(a + " " + b);
  }

  /** An integer reading with no whitespace reads as itself. */
  lemma IntegerToken(n: nat, t: string)
    requires t == NatToDigits(n)
    ensures ParseNum(t) == Some(n as real) && t != [] && NoSpace(t)
  {
    NatToDigitsParses(n);
  }

  /** The prompt's own example, "20 15", is passed on as dry 20, wet 15. */
  lemma PromptExample()
    ensures ProcessManualData("20 15") == ManualOutcome(ResultReply, Finished, Some(Calculation(20.0, 15.0)))
  {
    IntegerToken(20, "20");
    IntegerToken(15, "15");
    assert "20 15" == "20" + " " + "15";
    TwoNumberEntry("20", "15", 20.0, 15.0);
  }
}
