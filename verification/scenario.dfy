/** A short game played out on concrete captions. */
module Scenario {
  import opened Wrappers
  import Caption
  import Game

  /** The caption `1!` claims 1. */
  lemma ClaimsOne()
    ensures Caption.ParseCaption("1!") == Some(1)
  {
    assert "" + "1" + "!" + "" == "1!";
    assert Caption.Show(1) == "1";
    Caption.CaptionRoundTrip("", 1, "");
  }

  /** The caption `3!` claims 3. */
  lemma ClaimsThree()
    ensures Caption.ParseCaption("3!") == Some(3)
  {
    assert "" + "3" + "!" + "" == "3!";
    assert Caption.Show(3) == "3";
    Caption.CaptionRoundTrip("", 3, "");
  }

  /** A leading space and text after the `!` do not stop ` 2! found it` from claiming 2. */
  lemma ClaimsTwoPadded()
    ensures Caption.ParseCaption(" 2! found it") == Some(2)
  {
    assert " " + "2" + "!" + " found it" == " 2! found it";
    assert Caption.Show(2) == "2";
    Caption.CaptionRoundTrip(" ", 2, " found it");
  }

  /** The game after player 42 found 1 in message 100. */
  function AfterOne(): Game.State {
    Game.Accept(Game.Initial, 42, 100, 1)
  }

  /** On a fresh game, a caption claiming 1 is a find. */
  lemma RoundOne(one: string)
    requires Caption.ParseCaption(one) == Some(1)
    ensures Game.Step(Game.Initial, Game.Submission(Some(one), 42, 100)) == (AfterOne(), Game.Found(1))
  {
    Caption.ClaimHasText(one);
  }

  /** Once 1 is found, any claim other than 2 is a wrong number asking for 2. */
  lemma RoundRefused(c: string, u: Game.UserId, msg: Game.MessageId, n: nat)
    requires Caption.ParseCaption(c) == Some(n) && n != 2
    ensures Game.Step(AfterOne(), Game.Submission(Some(c), u, msg)) == (AfterOne(), Game.WrongNumber(2, Some(n)))
  {
    assert AfterOne().current == 1;
    Caption.ClaimHasText(c);
  }

  /** Once 1 is found, a claim of 2 by the same player is a find, and they now hold both. */
  lemma RoundTwo(two: string)
    requires Caption.ParseCaption(two) == Some(2)
    ensures
      var (after, outcome) := Game.Step(AfterOne(), Game.Submission(Some(two), 42, 103));
      && outcome == Game.Found(2) && after.current == 2
      && after.submissions.Keys == {42} && Game.SubmissionsOf(after, 42) == {1, 2}
      && after.history.Keys == {1, 2} && after.history[1] == 100 && after.history[2] == 103
  {
    assert AfterOne().current == 1;
    assert Game.SubmissionsOf(AfterOne(), 42) == {1};
    Caption.ClaimHasText(two);
  }

  /** Player 42 finds 1; player 7 claims 1 again and is told the game looks
      for 2; player 42 skips to 3 and is refused; a padded "2!" caption with
      trailing text is accepted. */
  lemma ShortGame()
    ensures Game.Step(Game.Initial, Game.Submission(Some("1!"), 42, 100)) == (AfterOne(), Game.Found(1))
    ensures Game.Step(AfterOne(), Game.Submission(Some("1!"), 7, 101)) == (AfterOne(), Game.WrongNumber(2, Some(1)))
    ensures Game.Step(AfterOne(), Game.Submission(Some("3!"), 42, 102)) == (AfterOne(), Game.WrongNumber(2, Some(3)))
    ensures
      var (after, outcome) := Game.Step(AfterOne(), Game.Submission(Some(" 2! found it"), 42, 103));
      && outcome == Game.Found(2) && after.current == 2
      && after.submissions.Keys == {42} && Game.SubmissionsOf(after, 42) == {1, 2}
      && after.history.Keys == {1, 2} && after.history[1] == 100 && after.history[2] == 103
  {
    ClaimsOne();
    ClaimsThree();
    ClaimsTwoPadded();
    RoundOne("1!");
    RoundRefused("1!", 7, 101, 1);
    RoundRefused("3!", 42, 102, 3);
    RoundTwo(" 2! found it");
  }
}
