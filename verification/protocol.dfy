/** The wire protocol shared by the host and the peripherals: command bytes,
    sub-commands, module type ids and the frames the host sends. */
module Protocol {
  import opened Common

  /** Size of a peripheral's receive buffer. */
  const TwiBufferSize: nat := 3

  /** First byte of a frame: which handler the frame is for. */
  const BaseCmd: byte := 0x00
  const KnobsCmd: byte := 0x01
  const SlidersCmd: byte := 0x02

  /** Sub-commands of the base handler. */
  const BaseFriendCode: byte := 0x01
  const BaseSwapAddress: byte := 0x02

  /** Sub-commands of the knob handler. */
  const KnobsGetChanges: byte := 0x01
  const KnobsClearChanges: byte := 0x02
  const KnobsGetEncoderNumber: byte := 0x03

  /** Sub-commands of the slider handler. */
  const SlidersGetChanges: byte := 0x01
  const SlidersClearChanges: byte := 0x02
  const SlidersGetSliderNumber: byte := 0x03

  /** Module type ids, the first byte of every friend code. */
  const ModKnobs: byte := 0x01
  const ModSliders: byte := 0x02

  /** Length of a friend code: one module-type byte and ten serial bytes. */
  const FriendCodeLen: nat := 11
  const SerialLen: nat := 10

  /** The address every peripheral answers at before promotion. */
  const DefaultAddr: byte := 0x03

  /** The host's address-change frame. */
  function SwapAddressFrame(newAddr: byte): seq<byte> {
    [0x00, 0x02, newAddr]
  }

  /** The host's identity-request frame. */
  function FriendCodeFrame(): seq<byte> {
    [0x00, 0x01]
  }

  /** The frame the host drivers send to ask for the unit count. */
  function CountRequestFrame(): seq<byte> {
    [0x02, 0x03]
  }

  /** Every frame the host manager sends fits the receive buffer, and the
      longest one fills it exactly. */
  lemma BufferFitsHostFrames(a: byte)
    ensures |SwapAddressFrame(a)| == TwiBufferSize
    ensures SwapAddressFrame(a) == [BaseCmd, BaseSwapAddress, a]
    ensures FriendCodeFrame() == [BaseCmd, BaseFriendCode]
    ensures CountRequestFrame() == [SlidersCmd, SlidersGetSliderNumber]
    ensures |FriendCodeFrame()| <= TwiBufferSize
    ensures |CountRequestFrame()| <= TwiBufferSize
  {
  }

  /** The base command is distinct from both module commands, and the
      module type ids agree with the module command bytes. */
  lemma CommandBytesDistinct()
    ensures BaseCmd != KnobsCmd && BaseCmd != SlidersCmd && KnobsCmd != SlidersCmd
    ensures ModKnobs == KnobsCmd && ModSliders == SlidersCmd
    ensures FriendCodeLen == 1 + SerialLen
  {
  }

  /** The sub-command numbering is shared by both module families. */
  lemma SubCommandsAgree()
    ensures KnobsGetChanges == SlidersGetChanges == 0x01
    ensures KnobsClearChanges == SlidersClearChanges == 0x02
    ensures KnobsGetEncoderNumber == SlidersGetSliderNumber == 0x03
    ensures BaseFriendCode != BaseSwapAddress
  {
  }
}
