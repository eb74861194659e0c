/** The package constant `pcic12`: the twelve models (each with one run)
    selected for best simulation of western North America. */
module Pyclimate {

  /** The lines of the `pcic12` text, each split on whitespace: a model
      name followed by its run. */
  const Pcic12Lines: seq<seq<string>> := [
    ["MPI-ESM-LR", "r3i1p1"],
    ["inmcm4", "r1i1p1"],
    ["HadGEM2-ES", "r1i1p1"],
    ["CanESM2", "r1i1p1"],
    ["MIROC5", "r3i1p1"],
    ["CSIRO-Mk3-6-0", "r1i1p1"],
    ["MRI-CGCM3", "r1i1p1"],
    ["ACCESS1-0", "r1i1p1"],
    ["CNRM-CM5", "r1i1p1"],
    ["CCSM4", "r2i1p1"],
    ["HadGEM2-CC", "r1i1p1"],
    ["GFDL-ESM2G", "r1i1p1"]
  ]

  /** `pcic12`: one `dict(model=..., run=...)` per line, from its first and
      second word. */
  function Pcic12(): (r: seq<map<string, string>>)
    ensures |r| == 12
    ensures forall i :: 0 <= i < |r| ==> r[i].Keys == {"model", "run"}
  {
    seq(|Pcic12Lines|, i requires 0 <= i < |Pcic12Lines| =>
      map["model" := Pcic12Lines[i][0], "run" := Pcic12Lines[i][1]])
  }

  /** The run each selected model is used with. */
  function RunOf(model: string): string
  {
    if model == "MPI-ESM-LR" || model == "MIROC5" then "r3i1p1"
    else if model == "CCSM4" then "r2i1p1"
    else "r1i1p1"
  }

  /** No model is listed twice. */
  lemma Pcic12ModelsDistinct()
    ensures forall i, j :: 0 <= i < j < |Pcic12()| ==> Pcic12()[i]["model"] != Pcic12()[j]["model"]
  {
  }

  /** MPI-ESM-LR and MIROC5 use r3i1p1, CCSM4 uses r2i1p1, every other
      model r1i1p1. */
  lemma Pcic12Runs()
    ensures forall i :: 0 <= i < |Pcic12()| ==> Pcic12()[i]["run"] == RunOf(Pcic12()[i]["model"])
  {
  }
}
