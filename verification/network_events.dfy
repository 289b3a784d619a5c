/** The simulator preset a scenario works on, and the calls it makes on the network events API. */
module NetworkEvents {

  /** The four simulator parameters of a preset. The diagnostic name is not modelled. */
  datatype Preset = Preset(
    packetDelayMs: int,
    packetJitterMs: int,
    packetLossPercent: int,
    packetLossInterval: int)

  /** One call made on the network events API; a scenario's observable behaviour is the
      sequence of these calls, in the order they are made. */
  datatype ApiCall =
    | ChangeConnectionPreset(preset: Preset)
    | TriggerLagSpike(durationMs: int)
    | TriggerLagSpikeAsync(durationMs: int)
}
