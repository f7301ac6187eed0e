TestResult.DisplayName,TestResult.Outcome,TestResult.Duration,TestResult.ResourceCount,RandomSeed
Mesh.BlockTrisWinding (correctness),Passed,00:00:00.1630992,128413,3
