/** The ring of reliable commands (Network/Types/Reliable.cpp). */
module Reliable {
  import opened Division

  /** The part of IReliableSequence and of a ring that stores its elements. */
  class ReliableSequence {
    const ring: array<string>
    var reliableSequence: nat
    var reliableAcknowledge: nat

    /** The accepted commands: number n is the one before place n. */
    ghost var accepted: seq<string>

    ghost predicate Valid()
      reads this, ring
    {
      && ring.Length > 0 && |accepted| == reliableSequence
      && reliableSequence <= reliableAcknowledge + ring.Length + 1
      && forall n :: Kept(n) ==> ring[n % ring.Length] == accepted[n - 1]
    }

    /** One of the latest numbers, as many as the ring has elements. */
    ghost predicate Kept(n: int)
      reads this
    {
      0 < n && reliableSequence - ring.Length < n <= reliableSequence
    }

    constructor (maxElements: nat)
      requires maxElements > 0
      ensures Valid() && accepted == [] && ring.Length == maxElements && fresh(ring) && reliableAcknowledge == 0
    {
      ring := new string[maxElements](_ => "");
      reliableSequence, reliableAcknowledge, accepted := 0, 0, [];
    }

    /** addCommand: a command is accepted unless the gap is one more than the ring has elements. */
    method AddCommand(command: string)
      requires Valid()
      modifies this, ring
      ensures Valid() && reliableAcknowledge == old(reliableAcknowledge)
      ensures accepted == if old(reliableSequence) > reliableAcknowledge + ring.Length then old(accepted)
                          else old(accepted) + [command]
    {
      var maxReliableCommands := ring.Length;
      if reliableAcknowledge + maxReliableCommands < reliableSequence {
        return;
      }
      ghost var before := ring[..];
      reliableSequence := reliableSequence + 1;
      var index := reliableSequence % maxReliableCommands;
      ring[index] := command;
      accepted := accepted + [command];
      forall n | Kept(n)
        ensures ring[n % ring.Length] == accepted[n - 1]
      {
        PlacesApart(n, reliableSequence, ring.Length);
        assert n < reliableSequence ==> before[n % ring.Length] == accepted[n - 1];
      }
    }

    /** getSequence. */
    method GetSequence(index: nat) returns (command: string)
      requires Valid()
      ensures Kept(index) ==> command == accepted[index - 1]
    {
      command := ring[index % ring.Length];
    }

    /** updateAcknowledge: afterwards the gap is at most as large as the ring. */
    method UpdateAcknowledge(acknowledged: nat)
      requires Valid()
      modifies this`reliableAcknowledge
      ensures Valid() && reliableSequence <= reliableAcknowledge + ring.Length
      ensures reliableAcknowledge
           == if acknowledged + ring.Length < reliableSequence then reliableSequence else acknowledged
    {
      reliableAcknowledge := acknowledged;
      if reliableAcknowledge + ring.Length < reliableSequence {
        reliableAcknowledge := reliableSequence;
      }
    }

    /**
     * Every unacknowledged command can still be read if and only if the gap is at most as large as the ring:
     * with the one more that AddCommand allows, the oldest of them has just been overwritten by the newest.
     */
    lemma UnacknowledgedKept()
      requires Valid()
      ensures (forall n :: reliableAcknowledge < n <= reliableSequence ==> Kept(n))
         <==> reliableSequence <= reliableAcknowledge + ring.Length
      ensures reliableSequence == reliableAcknowledge + ring.Length + 1 ==>
                ring[(reliableAcknowledge + 1) % ring.Length] == accepted[reliableSequence - 1]
    {
      if reliableSequence == reliableAcknowledge + ring.Length + 1 {
        assert !Kept(reliableAcknowledge + 1);
        assert Kept(reliableSequence);
        PlacesApart(reliableAcknowledge + 1, reliableSequence, ring.Length);
      }
    }
  }
}
