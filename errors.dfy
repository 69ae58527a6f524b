/** The exceptions raised by the core, one constructor per raise site, and the
    result type that carries them. The message texts of the source are not
    modelled, only which error is raised and the data it names. */
module Errors {

  import opened Bytes
  import opened Wrappers

  datatype Error =
    // lib/mtik/request.rb
    | UndefinedConstant            // NameError for `RUBY_VERSIION` (request.rb:161)
    | WordTooLong                  // RuntimeError, length >= 2^32 (request.rb:189-193)
    | NotAString                   // TypeError: a Proc other than the popped last argument, or an Array, reaching `addarg` (request.rb:127)
    // lib/mtik/connection.rb, framing and sentence assembly
    | BadLengthEncoding            // ArgumentError, first byte 0xF1..0xFF (connection.rb:563-566)
    | HeaderPastEnd                // NoMethodError on a missing 0xF0 header byte (connection.rb:560-561)
    | EmptySentence                // END-OF-SENTENCE with no words (connection.rb:208-210)
    | NotConnected                 // connection.rb:191-193
    | CommandTimeout               // MTik::TimeoutError (connection.rb:242-248)
    // lib/mtik/connection.rb, dispatch
    | LeftoverBytes(count: nat)    // connection.rb:278-280
    | NoRequestMade                // connection.rb:281-283
    | FatalLeftoverBytes(count: nat) // connection.rb:296-298
    | Fatal(message: Option<Bytes>) // MTik::FatalError, nil when `message` has no value (connection.rb:320-323)
    | Untagged                     // connection.rb:330-334
    | UnknownTag(tag: Option<Bytes>) // connection.rb:338-340
    | RequestAlreadyDone           // connection.rb:396-398
    // lib/mtik.rb
    | UnexpectedSentenceType       // mtik.rb:139-141
    | UnexpectedQuitReply          // mtik.rb:164-166
    // lib/mtik/connection.rb, login
    | NoReplySentence              // NoMethodError: `reply[0]` / `reply.first` is nil
    | LoginUnexpectedReply         // connection.rb:119-121
    | LoginNotConnected            // connection.rb:101-103
    | LoginRejected(reason: Bytes) // connection.rb:131-133
    | LoginUnknownResponse         // connection.rb:134-138
    | NilString                    // NoMethodError or TypeError: a nil value where a string is needed
                                   // (`ret` at connection.rb:124, `message` at connection.rb:132)

  /** A value or the error that was raised instead. */
  datatype Result<+T> = Ok(value: T) | Err(error: Error) {

    predicate IsFailure() {
      Err?
    }

    function PropagateFailure<U>(): Result<U>
      requires Err?
    {
      Err(error)
    }

    function Extract(): T
      requires Ok?
    {
      value
    }
  }
}
