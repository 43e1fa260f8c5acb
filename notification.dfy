/**
 * The notification text of `monitor_websites` in monitor.py: one block per change, in the
 * order the changes were found. Delivery to the webhook is not part of this model.
 */
module Notification {
  import opened Detection

  /** The first line of a change's block: its name in bold. */
  function NameLine(c: Change): string {
    "**" + c.name + "**\n"
  }

  /** The second line: a link symbol and the URL. */
  function LinkLine(c: Change): string {
    "\U{1F517} " + c.url + "\n"
  }

  /** The third line, followed by an empty line: a clock symbol and the previous check time. */
  function CheckLine(c: Change): string {
    "\U{1F550} Last check: " + c.previousCheck + "\n\n"
  }

  /** The block of one change. */
  function Entry(c: Change): string {
    NameLine(c) + LinkLine(c) + CheckLine(c)
  }

  /** The blocks of `xs`, one after the other. */
  function Blocks<T>(xs: seq<T>, block: T -> string): string
    decreases |xs|
  {
    if xs == [] then ""
    else Blocks(xs[..|xs| - 1], block) + block(xs[|xs| - 1])
  }

  /** The message for a list of changes: their blocks, one after the other. */
  function Message(changes: seq<Change>): string {
    Blocks(changes, Entry)
  }

  /** The loop that accumulates `message`. */
  method BuildMessage(changes: seq<Change>) returns (message: string)
    ensures message == Message(changes)
  {
    message := "";
    var i := 0;
    while i < |changes|
      invariant 0 <= i <= |changes|
      invariant message == Blocks(changes[..i], Entry)
    {
      var change := changes[i];
      assert changes[..i + 1][..i] == changes[..i];
      ghost var before := message;
      message := message + NameLine(change);
      message := message + LinkLine(change);
      message := message + CheckLine(change);
      assert message == before + Entry(change);
      i := i + 1;
    }
    assert changes[..i] == changes;
  }

  /** The blocks of two lists are the blocks of the first followed by those of the second. */
  lemma {:induction false} BlocksAppend<T>(a: seq<T>, b: seq<T>, block: T -> string)
    ensures Blocks(a + b, block) == Blocks(a, block) + Blocks(b, block)
    decreases |b|
  {
    if b == [] {
      assert a + b == a;
    } else {
      var b', last := b[..|b| - 1], b[|b| - 1];
      assert (a + b)[..|a + b| - 1] == a + b';
      assert (a + b)[|a + b| - 1] == last;
      calc {
        Blocks(a + b, block);
        Blocks(a + b', block) + block(last);
        { BlocksAppend(a, b', block); }
        Blocks(a, block) + Blocks(b', block) + block(last);
      }
    }
  }

  /** The message is empty exactly when there are no changes. */
  lemma {:induction false} MessageEmptyIff(changes: seq<Change>)
    ensures Message(changes) == "" <==> changes == []
  {
    if changes != [] {
      var last := changes[|changes| - 1];
      assert |Entry(last)| > 0;
      assert |Message(changes)| >= |Entry(last)|;
    }
  }

  /** The message of two lists of changes is the message of the first followed by that of
      the second. */
  lemma MessageAppend(a: seq<Change>, b: seq<Change>)
    ensures Message(a + b) == Message(a) + Message(b)
  {
    BlocksAppend(a, b, Entry);
  }

  /** Every change has its block in the message, after the blocks of the changes before it
      and before the blocks of the changes after it. */
  lemma MessageLists(changes: seq<Change>, k: nat)
    requires k < |changes|
    ensures Message(changes) == Message(changes[..k]) + Entry(changes[k]) + Message(changes[k + 1..])
  {
    var before, after := changes[..k], changes[k + 1..];
    assert changes == (before + [changes[k]]) + after;
    assert (before + [changes[k]])[..k] == before;
    BlocksAppend(before + [changes[k]], after, Entry);
    assert Blocks(before + [changes[k]], Entry) == Blocks(before, Entry) + Entry(changes[k]);
  }
}
